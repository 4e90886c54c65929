/** Small facts about sequences without repetitions, used for free lists and run queues. */
module Seqs {

  ghost predicate Distinct<T>(l: seq<T>) {
    forall p, q :: 0 <= p < q < |l| ==> l[p] != l[q]
  }

  /** The list without its (only) occurrence of x: what unlinking a node leaves. */
  function Remove<T(==)>(l: seq<T>, x: T): (r: seq<T>)
    ensures x !in l ==> r == l
    ensures x in l ==> |r| == |l| - 1
    ensures forall y :: y in r ==> y in l
    ensures forall y :: y in l && y != x ==> y in r
  {
    if l == [] then []
    else if l[0] == x then l[1..]
    else [l[0]] + Remove(l[1..], x)
  }

  lemma {:induction false} RemoveDistinct<T>(l: seq<T>, x: T)
    requires Distinct(l)
    ensures Distinct(Remove(l, x)) && x !in Remove(l, x)
  {
    if l != [] && l[0] != x {
      RemoveDistinct(l[1..], x);
      assert l[0] !in l[1..];
    }
  }

  lemma {:induction false} RemoveAt<T>(l: seq<T>, p: nat)
    requires Distinct(l) && p < |l|
    ensures Remove(l, l[p]) == l[..p] + l[p + 1..]
  {
    if p > 0 {
      assert l[0] != l[p];
      RemoveAt(l[1..], p - 1);
      assert l[1..][p - 1] == l[p];
      assert l[..p] + l[p + 1..] == [l[0]] + (l[1..][..p - 1] + l[1..][p..]);
    }
  }
}
