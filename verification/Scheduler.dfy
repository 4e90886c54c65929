/** The scheduler on its real links (lab7/src/sched.c:15-131, lab7/src/syscall.c:269-292): tasks
    carry next and prev, run_queue and zombie_queue point at the heads. */
module Scheduler {
  import opened Seqs
  import opened SchedModel

  type Links = map<nat, Option<nat>>

  function Succ(i: nat, n: nat): nat { if i + 1 == n then 0 else i + 1 }

  predicate LinkedAt(next: Links, prev: Links, ring: seq<nat>, i: nat)
    requires i < |ring|
  {
    var a, b := ring[i], ring[Succ(i, |ring|)];
    a in next && b in prev && next[a] == Some(b) && prev[b] == Some(a)
  }

  /** A circular doubly linked list. */
  ghost predicate Ring(next: Links, prev: Links, head: Option<nat>, ring: seq<nat>) {
    && Distinct(ring) && head == (if ring == [] then None else Some(ring[0]))
    && forall i :: 0 <= i < |ring| ==> LinkedAt(next, prev, ring, i)
  }

  /** A list through next alone. */
  ghost predicate Chain(next: Links, head: Option<nat>, l: seq<nat>)
    decreases |l|
  {
    if l == [] then head == None else head == Some(l[0]) && l[0] in next && Chain(next, next[l[0]], l[1..])
  }

  lemma {:induction false} ChainFrame(next: Links, next': Links, head: Option<nat>, l: seq<nat>)
    requires Chain(next, head, l) && forall t :: t in l ==> t in next' && (t in next ==> next'[t] == next[t])
    ensures Chain(next', head, l)
    decreases |l|
  {
    if l != [] { ChainFrame(next, next', next[l[0]], l[1..]); }
  }

  // ---------------------------------------------------------------- enqueue and dequeue on values

  /** The links after enqueue: the task is put between the tail and the head. */
  function Enqueued(next: Links, prev: Links, ring: seq<nat>, t: nat): (Links, Links) {
    if ring == [] then (next[t := Some(t)], prev[t := Some(t)])
    else (next[ring[|ring| - 1] := Some(t)][t := Some(ring[0])], prev[t := Some(ring[|ring| - 1])][ring[0] := Some(t)])
  }

  lemma EnqueueOk(next: Links, prev: Links, head: Option<nat>, ring: seq<nat>, t: nat)
    requires Ring(next, prev, head, ring) && t !in ring
    ensures var (n, p) := Enqueued(next, prev, ring, t); Ring(n, p, Some((ring + [t])[0]), ring + [t])
  {
    var (n, p) := Enqueued(next, prev, ring, t);
    forall i | 0 <= i < |ring| + 1 ensures LinkedAt(n, p, ring + [t], i) {
      if i < |ring| { assert LinkedAt(next, prev, ring, i); }
      if i < |ring| - 1 { assert ring[i] != ring[|ring| - 1] && ring[0] != ring[i + 1]; }
    }
  }

  lemma RingLast(next: Links, prev: Links, head: Option<nat>, ring: seq<nat>)
    requires Ring(next, prev, head, ring)
    ensures ring != [] ==> ring[0] in prev && prev[ring[0]] == Some(ring[|ring| - 1])
                           && ring[|ring| - 1] in next && next[ring[|ring| - 1]] == Some(ring[0])
  {
    if ring != [] { assert LinkedAt(next, prev, ring, |ring| - 1); }
  }

  /** The neighbours of the task at index i. */
  lemma Neighbours(next: Links, prev: Links, head: Option<nat>, ring: seq<nat>, i: nat)
    requires Ring(next, prev, head, ring) && i < |ring|
    ensures ring[i] in next && ring[i] in prev
    ensures next[ring[i]] == Some(ring[Succ(i, |ring|)])
    ensures prev[ring[i]] == Some(ring[if i == 0 then |ring| - 1 else i - 1])
    ensures ring[Succ(i, |ring|)] in prev && ring[if i == 0 then |ring| - 1 else i - 1] in next
  {
    assert LinkedAt(next, prev, ring, i);
    assert LinkedAt(next, prev, ring, if i == 0 then |ring| - 1 else i - 1);
  }

  /** The links after dequeue of the task at index i. */
  function Dequeued(next: Links, prev: Links, ring: seq<nat>, i: nat): (Links, Links)
    requires i < |ring|
  {
    var a, b := ring[if i == 0 then |ring| - 1 else i - 1], ring[Succ(i, |ring|)];
    (next[a := Some(b)][ring[i] := None], prev[b := Some(a)][ring[i] := None])
  }

  lemma DequeueOk(next: Links, prev: Links, head: Option<nat>, ring: seq<nat>, i: nat)
    requires Ring(next, prev, head, ring) && i < |ring| && |ring| > 1
    ensures var (n, p) := Dequeued(next, prev, ring, i);
            Ring(n, p, if i == 0 then Some(ring[1]) else head, ring[..i] + ring[i + 1..])
  {
    hide LinkedAt;
    var (n, p) := Dequeued(next, prev, ring, i);
    var r := ring[..i] + ring[i + 1..];
    forall j | 0 <= j < |r| ensures LinkedAt(n, p, r, j) {
      DequeueAt(next, prev, head, ring, i, j);
    }
  }

  lemma DequeueAt(next: Links, prev: Links, head: Option<nat>, ring: seq<nat>, i: nat, j: nat)
    requires Ring(next, prev, head, ring) && i < |ring| && |ring| > 1 && j < |ring| - 1
    ensures var (n, p) := Dequeued(next, prev, ring, i); LinkedAt(n, p, ring[..i] + ring[i + 1..], j)
  {
    var k := if j < i then j else j + 1;           // the index in the old ring
    var m := Succ(k, |ring|);
    assert LinkedAt(next, prev, ring, k);
    if m == i { assert LinkedAt(next, prev, ring, i); }
  }

  lemma ZombiesApart(next: Links, zombie: map<nat, bool>, ring: seq<nat>, zombies: seq<nat>)
    requires Marked(next, zombie, ring, zombies)
    ensures forall x :: x in zombies ==> x in next && x !in ring
  {
  }

  lemma DequeuedFrame(next: Links, prev: Links, ring: seq<nat>, i: nat)
    requires i < |ring|
    ensures var n := Dequeued(next, prev, ring, i).0;
            ring[i] in n && forall x :: x in next && x !in ring ==> x in n && n[x] == next[x]
  {
  }

  lemma MoveSets(ring: seq<nat>, zombies: seq<nat>, i: nat)
    requires i < |ring| && Distinct(ring) && forall x :: x in ring ==> x !in zombies
    ensures forall x :: x in ring[..i] + ring[i + 1..] <==> x in ring && x != ring[i]
    ensures forall x :: x in [ring[i]] + zombies <==> x == ring[i] || x in zombies
  {
    forall x ensures x in ring[..i] + ring[i + 1..] <==> x in ring && x != ring[i] {
      if x in ring && x != ring[i] {
        var j :| 0 <= j < |ring| && ring[j] == x;
        assert if j < i then ring[..i][j] == x else ring[i + 1..][j - i - 1] == x;
      }
    }
  }

  /** Taking the only task out leaves the head pointing at a task without links: no ring at all. */
  lemma DequeueLast(next: Links, prev: Links, t: nat)
    requires Ring(next, prev, Some(t), [t])
    ensures var (n, p) := Dequeued(next, prev, [t], 0);
            t in n && n[t] == None && forall r :: !Ring(n, p, Some(t), r)
  {
    var (n, p) := Dequeued(next, prev, [t], 0);
    forall r ensures !Ring(n, p, Some(t), r) {
      assert r != [] && r[0] == t ==> !LinkedAt(n, p, r, 0);
    }
  }

  lemma DequeueOnly(next: Links, prev: Links, head: Option<nat>, ring: seq<nat>)
    requires Ring(next, prev, head, ring) && |ring| == 1
    ensures var (n, p) := Dequeued(next, prev, ring, 0); forall r :: !Ring(n, p, head, r)
  {
    assert ring == [ring[0]];
    DequeueLast(next, prev, ring[0]);
  }

  /** The tasks of the ring are running, those of the zombie list are zombies. */
  ghost predicate Marked(next: Links, zombie: map<nat, bool>, ring: seq<nat>, zombies: seq<nat>) {
    && (forall t :: t in ring ==> t !in zombies && t in zombie && !zombie[t])
    && (forall t :: t in zombies ==> t in next && t in zombie && zombie[t])
  }

  lemma MarkedAfterMove(next: Links, next': Links, zombie: map<nat, bool>, ring: seq<nat>, zombies: seq<nat>, i: nat)
    requires Marked(next, zombie, ring, zombies) && i < |ring| && Distinct(ring)
    requires ring[i] in next' && forall x :: x in zombies ==> x in next'
    ensures Marked(next', zombie[ring[i] := true], ring[..i] + ring[i + 1..], [ring[i]] + zombies)
    ensures forall x :: x in zombies ==> x in next && x !in ring
  {
    MoveSets(ring, zombies, i);
  }

  // ---------------------------------------------------------------- the object

  class Tasks {
    var next: Links
    var prev: Links
    var zombie: map<nat, bool>
    var runQueue: Option<nat>
    var zombieQueue: Option<nat>
    var current: nat
    ghost var ring: seq<nat>
    ghost var zombies: seq<nat>
    ghost var reaped: set<nat>

    ghost function Abs(): State
      reads this
    {
      State(ring, zombies, reaped)
    }

    ghost predicate Linked()
      reads this
    {
      Ring(next, prev, runQueue, ring) && Chain(next, zombieQueue, zombies) && Marked(next, zombie, ring, zombies)
    }

    /** Outside a call the running task is the head of the ring. */
    ghost predicate Valid()
      reads this
    {
      Linked() && ring != [] && current == ring[0]
    }

    constructor (idle: nat)
      ensures Valid() && ring == [idle] && zombies == [] && reaped == {}
    {
      next, prev := map[idle := Some(idle)], map[idle := Some(idle)];
      zombie := map[idle := false];
      runQueue, zombieQueue, current := Some(idle), None, idle;
      ring, zombies, reaped := [idle], [], {};
    }

    /** enqueue(&run_queue, t), for a task just set up */
    method Enqueue(t: nat)
      requires Linked() && t !in ring && t !in zombies
      modifies this`next, this`prev, this`zombie, this`runQueue, this`ring
      ensures Linked() && ring == old(ring) + [t]
    {
      hide Ring, Chain;
      HeadIs(next, prev, runQueue, ring);
      RingLast(next, prev, runQueue, ring);
      EnqueueOk(next, prev, runQueue, ring, t);
      ghost var n := Enqueued(next, prev, ring, t).0;
      ChainFrame(next, n, zombieQueue, zombies);
      if runQueue.None? {
        runQueue := Some(t);
        next := next[t := Some(t)];
        prev := prev[t := Some(t)];
      } else {
        var q := runQueue.value;
        var tail := prev[q].value;
        next := next[tail := Some(t)];
        next := next[t := Some(q)];
        prev := prev[t := Some(tail)];
        prev := prev[q := Some(t)];
      }
      zombie := zombie[t := false];
      ring := ring + [t];
    }

    /** dequeue(t) and the move to the zombie list, shared by thread_exit and sys_stop. */
    method MoveToZombies(t: nat, ghost i: nat)
      requires Linked() && |ring| > 1 && i < |ring| && ring[i] == t
      modifies this`next, this`prev, this`zombie, this`runQueue, this`zombieQueue, this`ring, this`zombies
      ensures Linked() && ring == old(ring[..i] + ring[i + 1..]) && zombies == [t] + old(zombies)
    {
      hide Ring, Chain, Marked;
      RingDistinct(next, prev, runQueue, ring);
      ZombiesApart(next, zombie, ring, zombies);
      MoveSets(ring, zombies, i);
      ghost var n := next;
      ghost var marks := zombie;
      zombie := zombie[t := true];
      Unlink(t, i);
      RingFrame(next, prev, runQueue, ring[..i] + ring[i + 1..], t, next[t := zombieQueue]);
      next := next[t := zombieQueue];
      ChainFrame(n, next, zombieQueue, zombies);
      ChainCons(next, t, zombies);
      MarkedAfterMove(n, next, marks, ring, zombies, i);
      zombieQueue := Some(t);
      zombies := [t] + zombies;
      ring := ring[..i] + ring[i + 1..];
    }

    /** dequeue: the rest of the ring stays a ring in its order, headed by the successor if the head
        went; the task itself keeps no links, and no other list is touched.  Taken out of a ring of
        one, it leaves no ring at all. */
    method Unlink(t: nat, ghost i: nat)
      requires Ring(next, prev, runQueue, ring) && i < |ring| && ring[i] == t
      modifies this`next, this`prev, this`runQueue
      ensures |ring| > 1 ==> Ring(next, prev, runQueue, ring[..i] + ring[i + 1..])
      ensures |ring| == 1 ==> forall r :: !Ring(next, prev, runQueue, r)
      ensures t in next && next[t] == None && t in prev && prev[t] == None
      ensures forall x :: x in old(next) && x !in ring ==> x in next && next[x] == old(next)[x]
    {
      hide Ring, LinkedAt;
      HeadIs(next, prev, runQueue, ring);
      RingDistinct(next, prev, runQueue, ring);
      Neighbours(next, prev, runQueue, ring, i);
      DequeuedFrame(next, prev, ring, i);
      if |ring| > 1 { DequeueOk(next, prev, runQueue, ring, i); } else { DequeueOnly(next, prev, runQueue, ring); }
      ghost var s := Dequeued(next, prev, ring, i);
      var after, before := next[t].value, prev[t].value;
      prev := prev[after := Some(before)];
      next := next[before := Some(after)];
      if runQueue == Some(t) { runQueue := Some(after); }
      next := next[t := None];
      prev := prev[t := None];
      assert (next, prev) == s;
    }

    /** schedule(): a running head steps back; a task that has left the ring just gives way. */
    method Schedule()
      requires Linked() && ring != [] && (current in ring ==> current == ring[0])
      modifies this`runQueue, this`current, this`ring
      ensures Valid() && ring == if old(current) in old(ring) then Rotate(old(ring)) else old(ring)
    {
      hide Ring, Chain;
      HeadIs(next, prev, runQueue, ring);
      Neighbours(next, prev, runQueue, ring, 0);
      RingRotates(next, prev, runQueue, ring);
      if current == runQueue.value {
        runQueue := next[current];
        ring := Rotate(ring);
        HeadIs(next, prev, runQueue, ring);
      }
      if current != runQueue.value {
        current := runQueue.value;
      }
    }

    /** thread_exit of the running task; not of the only task there is. */
    method ThreadExit()
      requires Valid() && |ring| > 1
      modifies this
      ensures Valid() && Abs() == Next(old(Abs()), SchedModel.Exit)
    {
      hide Ring, Chain;
      RingDistinct(next, prev, runQueue, ring);
      ghost var r := ring;
      MoveToZombies(current, 0);
      assert r[..0] + r[1..] == r[1..];
      Schedule();
    }

    /** sys_stop: the walk around the ring from its head. */
    method SysStop(pid: nat) returns (r: int)
      requires Valid()
      modifies this
      ensures Valid() && Abs() == Next(old(Abs()), SchedModel.Stop(pid))
      ensures r == if pid in old(ring) && pid != old(ring)[0] then 0 else -1
    {
      hide Ring, Chain;
      HeadIs(next, prev, runQueue, ring);
      RingDistinct(next, prev, runQueue, ring);
      var curr := runQueue.value;
      ghost var i := 0;
      while true
        invariant 0 <= i < |ring| && curr == ring[i] && Valid() && Abs() == old(Abs()) && runQueue == Some(ring[0])
        invariant forall j :: 0 <= j < i ==> ring[j] != pid
        decreases |ring| - i
      {
        if curr == pid {
          if curr == current {
            return -1;
          }
          ghost var s := Abs();
          RemoveAt(ring, i);
          MoveToZombies(curr, i);
          return 0;
        }
        Neighbours(next, prev, runQueue, ring, i);
        curr := next[curr].value;
        i := Succ(i, |ring|);
        if Some(curr) == runQueue {
          HeadOnce(ring, i);
          break;
        }
      }
      return -1;
    }

    /** One round of sys_waitpid: the walk around the ring from its head.  A task of the ring is
        found and is never marked as a zombie. */
    method PollRound(pid: nat) returns (r: Poll)
      requires Valid()
      ensures r == Round(Abs(), pid)
    {
      hide Ring, Chain, Marked;
      HeadIs(next, prev, runQueue, ring);
      RingDistinct(next, prev, runQueue, ring);
      var p := runQueue.value;
      ghost var i := 0;
      while true
        invariant 0 <= i < |ring| && p == ring[i] && runQueue == Some(ring[0])
        invariant forall j :: 0 <= j < i ==> ring[j] != pid
        decreases |ring| - i
      {
        if p == pid {
          RingMark(next, zombie, ring, zombies, p);
          return if zombie[p] then Ended else Busy;
        }
        Neighbours(next, prev, runQueue, ring, i);
        p := next[p].value;
        i := Succ(i, |ring|);
        if Some(p) == runQueue {
          HeadOnce(ring, i);
          break;
        }
      }
      return Gone;
    }

    /** kill_zombies: the whole list is taken and freed, one task after the other. */
    method KillZombies()
      requires Valid()
      modifies this`zombieQueue, this`zombies, this`reaped, this`next, this`prev, this`zombie
      ensures Valid() && Abs() == Next(old(Abs()), SchedModel.KillZombies)
    {
      hide Ring;
      var curr := zombieQueue;
      zombieQueue := None;
      ghost var left := zombies;
      ghost var all := zombies;
      ghost var r0 := reaped;
      zombies := [];
      while curr.Some?
        invariant Chain(next, curr, left) && Valid() && ring == old(ring) && zombies == []
        invariant forall t :: t in left ==> t !in ring
        invariant forall t :: t in all <==> t in left || (t in all && t in reaped - r0) || (t in all && t in r0)
        invariant reaped == r0 + (set t | t in all && t in reaped) && r0 <= reaped
        decreases |left|
      {
        var temp := curr.value;
        curr := next[temp];
        reaped := reaped + {temp};
        left := left[1..];
      }
    }
  }

  lemma HeadIs(next: Links, prev: Links, head: Option<nat>, ring: seq<nat>)
    requires Ring(next, prev, head, ring)
    ensures head == if ring == [] then None else Some(ring[0])
  {
  }

  lemma RingDistinct(next: Links, prev: Links, head: Option<nat>, ring: seq<nat>)
    requires Ring(next, prev, head, ring)
    ensures Distinct(ring)
  {
  }

  lemma RingMark(next: Links, zombie: map<nat, bool>, ring: seq<nat>, zombies: seq<nat>, t: nat)
    requires Marked(next, zombie, ring, zombies) && t in ring
    ensures t in zombie && !zombie[t]
  {
  }

  lemma RingRotates(next: Links, prev: Links, head: Option<nat>, ring: seq<nat>)
    requires Ring(next, prev, head, ring) && ring != []
    ensures ring[0] in next && Ring(next, prev, next[ring[0]], Rotate(ring))
  {
    var n := |ring|;
    var r := Rotate(ring);
    forall i | 0 <= i < n ensures LinkedAt(next, prev, r, i) {
      assert LinkedAt(next, prev, ring, Succ(i, n));
    }
    assert LinkedAt(next, prev, ring, 0);
  }

  lemma RingFrame(next: Links, prev: Links, head: Option<nat>, ring: seq<nat>, t: nat, next': Links)
    requires Ring(next, prev, head, ring) && t !in ring
    requires forall x :: x in next && x != t ==> x in next' && next'[x] == next[x]
    ensures Ring(next', prev, head, ring)
  {
    forall i | 0 <= i < |ring| ensures LinkedAt(next', prev, ring, i) {
      assert LinkedAt(next, prev, ring, i);
    }
  }

  lemma ChainCons(next: Links, t: nat, l: seq<nat>)
    requires t in next && Chain(next, next[t], l)
    ensures Chain(next, Some(t), [t] + l)
  {
    assert ([t] + l)[1..] == l;
  }

  lemma HeadOnce(ring: seq<nat>, i: nat)
    requires Distinct(ring) && i < |ring| && ring[i] == ring[0]
    ensures i == 0
  {
  }
}
