/** A family of circular lists threaded through the same nodes: the free lists of the
    buddy allocator.  Nodes are 0..n-1; the head of list k is node n+k. */
module ListFamily {
  import opened Seqs
  import opened Links

  /** Lists of a family live on nodes below n and share no node. */
  ghost predicate Family(n: nat, lists: seq<seq<nat>>) {
    && (forall k, x :: 0 <= k < |lists| && x in lists[k] ==> x < n)
    && (forall k, k', x :: 0 <= k < |lists| && 0 <= k' < |lists| && x in lists[k] && x in lists[k'] ==> k == k')
  }

  ghost predicate AllLinked(next: seq<int>, prev: seq<int>, n: nat, lists: seq<seq<nat>>) {
    forall k :: 0 <= k < |lists| ==> Linked(next, prev, n + k, lists[k])
  }

  lemma AddKeepsLinked(next: seq<int>, prev: seq<int>, n: nat, lists: seq<seq<nat>>, k: nat, q: nat, x: nat)
    requires Family(n, lists) && AllLinked(next, prev, n, lists) && |next| == |prev| == n + |lists|
    requires k < |lists| && q <= |lists[k]| && x < n && forall h :: 0 <= h < |lists| ==> x !in lists[h]
    requires 0 <= At(n + k, lists[k], q) < |next| && 0 <= At(n + k, lists[k], q - 1) < |next|
    ensures var a, b := At(n + k, lists[k], q - 1), At(n + k, lists[k], q);
            && AllLinked(NextAfterAdd(next, x, a, b), PrevAfterAdd(prev, x, a, b), n, lists[k := Inserted(lists[k], q, x)])
            && Family(n, lists[k := Inserted(lists[k], q, x)])
  {
    var a, b := At(n + k, lists[k], q - 1), At(n + k, lists[k], q);
    var nx, pv := NextAfterAdd(next, x, a, b), PrevAfterAdd(prev, x, a, b);
    var r := lists[k := Inserted(lists[k], q, x)];
    InsertedMembers(lists[k], q, x);
    forall h | 0 <= h < |r| ensures Linked(nx, pv, n + h, r[h]) {
      if h == k {
        InsertLinks(next, prev, n + k, lists[k], q, x);
      } else {
        OtherRing(n, lists, h, k, x);
        LinkedFrame(next, prev, nx, pv, n + h, lists[h]);
      }
    }
  }

  /** The nodes and head of list h are not among those of list k. */
  lemma OtherRing(n: nat, lists: seq<seq<nat>>, h: nat, k: nat, x: nat)
    requires Family(n, lists) && h < |lists| && k < |lists| && h != k
    requires x < n && x !in lists[h]
    ensures forall p, q {:trigger At(n + h, lists[h], p), At(n + k, lists[k], q)} ::
              At(n + h, lists[h], p) != At(n + k, lists[k], q)
    ensures forall p {:trigger At(n + h, lists[h], p)} :: At(n + h, lists[h], p) != x
  {
    forall p, q {:trigger At(n + h, lists[h], p), At(n + k, lists[k], q)}
      ensures At(n + h, lists[h], p) != At(n + k, lists[k], q)
    {
      if 0 <= p < |lists[h]| { assert lists[h][p] in lists[h]; }
      if 0 <= q < |lists[k]| { assert lists[k][q] in lists[k]; }
    }
    forall p {:trigger At(n + h, lists[h], p)} ensures At(n + h, lists[h], p) != x {
      if 0 <= p < |lists[h]| { assert lists[h][p] in lists[h]; }
    }
  }

  lemma DelKeepsLinked(next: seq<int>, prev: seq<int>, n: nat, lists: seq<seq<nat>>, k: nat, q: nat)
    requires Family(n, lists) && AllLinked(next, prev, n, lists) && |next| == |prev| == n + |lists|
    requires k < |lists| && q < |lists[k]| && lists[k][q] < |next|
    requires 0 <= At(n + k, lists[k], q + 1) < |next| && 0 <= At(n + k, lists[k], q - 1) < |next|
    ensures var x, a, b := lists[k][q], At(n + k, lists[k], q - 1), At(n + k, lists[k], q + 1);
            && AllLinked(NextAfterDel(next, x, a, b), PrevAfterDel(prev, x, a, b), n, lists[k := Remove(lists[k], x)])
            && Family(n, lists[k := Remove(lists[k], x)])
  {
    var x, a, b := lists[k][q], At(n + k, lists[k], q - 1), At(n + k, lists[k], q + 1);
    var nx, pv := NextAfterDel(next, x, a, b), PrevAfterDel(prev, x, a, b);
    var r := lists[k := Remove(lists[k], x)];
    assert x in lists[k];
    forall h | 0 <= h < |r| ensures Linked(nx, pv, n + h, r[h]) {
      if h == k {
        DeleteLinks(next, prev, n + k, lists[k], q);
      } else {
        OtherRing(n, lists, h, k, x);
        LinkedFrame(next, prev, nx, pv, n + h, lists[h]);
      }
    }
  }

  class FreeLists {
    const n: nat
    const next: array<int>
    const prev: array<int>
    ghost var lists: seq<seq<nat>>

    ghost predicate Valid()
      reads this, next, prev
    {
      && next != prev && next.Length == prev.Length == n + |lists|
      && Family(n, lists)
      && AllLinked(next[..], prev[..], n, lists)
    }

    /** init of every list head and of every node. */
    constructor (n: nat, heads: nat)
      ensures Valid() && fresh(next) && fresh(prev) && this.n == n
      ensures |lists| == heads && forall k :: 0 <= k < heads ==> lists[k] == []
    {
      this.n := n;
      var nx := new int[n + heads];
      var pv := new int[n + heads];
      next, prev := nx, pv;
      lists := seq(heads, _ => []);
      new;
      for i := 0 to n + heads
        modifies next, prev
        invariant forall j :: 0 <= j < i ==> next[j] == j && prev[j] == j
      {
        next[i], prev[i] := i, i;
      }
      forall k | 0 <= k < |lists| ensures Linked(next[..], prev[..], n + k, lists[k]) {
        assert At(n + k, [], -1) == n + k && At(n + k, [], 0) == n + k;
      }
    }

    /** list_add: insert x at the front of list k. */
    method Add(x: nat, k: nat)
      requires Valid() && k < |lists| && x < n
      requires forall h :: 0 <= h < |lists| ==> x !in lists[h]
      modifies this`lists, next, prev
      ensures Valid() && lists == old(lists)[k := [x] + old(lists)[k]]
    {
      var head := n + k;
      assert Linked(next[..], prev[..], head, lists[k]);
      assert NextOk(next[..], head, lists[k], -1);
      var first := next[head];
      InsertBetween(x, head, first, k, 0);
      assert Inserted(old(lists)[k], 0, x) == [x] + old(lists)[k];
    }

    /** __list_add: link x between the neighbours a and b. */
    method InsertBetween(x: nat, a: int, b: int, ghost k: nat, ghost q: nat)
      requires Valid() && k < |lists| && x < n && q <= |lists[k]|
      requires forall h :: 0 <= h < |lists| ==> x !in lists[h]
      requires a == At(n + k, lists[k], q - 1) && b == At(n + k, lists[k], q)
      modifies this`lists, next, prev
      ensures Valid() && lists == old(lists)[k := Inserted(old(lists)[k], q, x)]
    {
      assert Linked(next[..], prev[..], n + k, lists[k]);
      assert NextOk(next[..], n + k, lists[k], q - 1) && PrevOk(prev[..], n + k, lists[k], q);
      AddKeepsLinked(next[..], prev[..], n, lists, k, q, x);
      ghost var nx := NextAfterAdd(next[..], x, a, b);
      ghost var pv := PrevAfterAdd(prev[..], x, a, b);
      prev[b] := x;
      next[x] := b;
      prev[x] := a;
      next[a] := x;
      assert next[..] == nx && prev[..] == pv;
      lists := lists[k := Inserted(lists[k], q, x)];
    }

    /** list_del: unlink x, wherever it is in list k. */
    method Del(x: nat, ghost k: nat)
      requires Valid() && k < |lists| && x in lists[k]
      modifies this`lists, next, prev
      ensures Valid() && lists == old(lists)[k := Remove(old(lists)[k], x)]
    {
      ghost var q :| 0 <= q < |lists[k]| && lists[k][q] == x;
      assert Linked(next[..], prev[..], n + k, lists[k]);
      assert NextOk(next[..], n + k, lists[k], q) && PrevOk(prev[..], n + k, lists[k], q);
      assert NextOk(next[..], n + k, lists[k], q - 1) && PrevOk(prev[..], n + k, lists[k], q + 1);
      DelKeepsLinked(next[..], prev[..], n, lists, k, q);
      ghost var nx := NextAfterDel(next[..], x, At(n + k, lists[k], q - 1), At(n + k, lists[k], q + 1));
      ghost var pv := PrevAfterDel(prev[..], x, At(n + k, lists[k], q - 1), At(n + k, lists[k], q + 1));
      prev[next[x]] := prev[x];
      next[prev[x]] := next[x];
      next[x] := NULL;
      prev[x] := NULL;
      assert next[..] == nx;
      assert prev[..] == pv;
      lists := lists[k := Remove(lists[k], x)];
    }

    /** list_empty */
    method Empty(k: nat) returns (b: bool)
      requires Valid() && k < |lists|
      ensures b <==> lists[k] == []
    {
      b := next[n + k] == n + k;
      assert Linked(next[..], prev[..], n + k, lists[k]);
      assert NextOk(next[..], n + k, lists[k], -1);
      if lists[k] != [] { assert lists[k][0] in lists[k]; }
    }

    method First(k: nat) returns (x: nat)
      requires Valid() && k < |lists| && lists[k] != []
      ensures x == lists[k][0]
    {
      assert Linked(next[..], prev[..], n + k, lists[k]);
      assert NextOk(next[..], n + k, lists[k], -1);
      x := next[n + k];
    }
  }
}
