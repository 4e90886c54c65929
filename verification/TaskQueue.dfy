/** The task pool and its linked queue (lab4/src/task.c:8-78) in place: the sections that run with
    interrupts off are the steps of TaskModel. */
module TaskQueue {
  import opened TaskModel

  const NULL := -1

  /** Where the list of slots goes on after index i of the queue. */
  function LinkAfter(q: seq<Entry>, i: int): int { if 0 <= i + 1 < |q| then q[i + 1].slot else NULL }

  lemma {:induction false} InsertIsAt(q: seq<Entry>, e: Entry, k: nat)
    requires k <= |q| && (forall i :: 0 <= i < k ==> q[i].priority <= e.priority) && (k < |q| ==> e.priority < q[k].priority)
    ensures Insert(q, e) == q[..k] + [e] + q[k..]
    decreases k
  {
    if k > 0 {
      assert q[0].priority <= e.priority;
      InsertIsAt(q[1..], e, k - 1);
      assert q[1..][..k - 1] == q[1..k] && q[1..][k - 1..] == q[k..];
      assert q[..k] == [q[0]] + q[1..k];
    }
  }

  /** The node at index i of the queue holds its priority and the link to the next. */
  predicate NodeOk(q: seq<Entry>, priority: seq<int>, next: seq<int>, i: nat)
    requires i < |q|
  {
    var s := q[i].slot;
    s < |priority| && s < |next| && priority[s] == q[i].priority && next[s] == LinkAfter(q, i)
  }

  /** The links and priorities hold the queue, each task in its own slot. */
  ghost predicate Linked(q: seq<Entry>, priority: seq<int>, next: seq<int>) {
    && (forall i :: 0 <= i < |q| ==> NodeOk(q, priority, next, i))
    && (forall i, j :: 0 <= i < j < |q| ==> q[i].slot != q[j].slot)
  }

  /** The slots of the queued tasks hold their work. */
  ghost predicate Works(q: seq<Entry>, work: seq<Work>) {
    forall i :: 0 <= i < |q| ==> q[i].slot < |work| && work[q[i].slot] == q[i].work
  }

  lemma WorksAdded(q: seq<Entry>, e: Entry, k: nat, work: seq<Work>)
    requires Works(q, work) && SlotUnused(q, e.slot) && e.slot < |work| && k <= |q|
    ensures Works(q[..k] + [e] + q[k..], work[e.slot := e.work])
  {
  }

  ghost predicate SlotUnused(q: seq<Entry>, s: nat) { forall k :: 0 <= k < |q| ==> q[k].slot != s }

  lemma FrontOk(q: seq<Entry>, e: Entry, priority: seq<int>, next: seq<int>)
    requires Linked(q, priority, next) && SlotUnused(q, e.slot)
    requires e.slot < |priority| && e.slot < |next| && priority[e.slot] == e.priority
    ensures Linked([e] + q, priority, next[e.slot := LinkAfter(q, -1)])
  {
    var r, n := [e] + q, next[e.slot := LinkAfter(q, -1)];
    forall h | 0 <= h < |r| ensures NodeOk(r, priority, n, h) {
      if h > 0 { assert r[h] == q[h - 1] && NodeOk(q, priority, next, h - 1); }
    }
  }

  lemma AfterOk(q: seq<Entry>, e: Entry, priority: seq<int>, next: seq<int>, k: nat)
    requires Linked(q, priority, next) && SlotUnused(q, e.slot) && k < |q|
    requires e.slot < |priority| && e.slot < |next| && priority[e.slot] == e.priority
    ensures q[k].slot < |next|
    ensures Linked(q[..k + 1] + [e] + q[k + 1..], priority, next[e.slot := next[q[k].slot]][q[k].slot := e.slot])
  {
    assert NodeOk(q, priority, next, k);
    var r, n := q[..k + 1] + [e] + q[k + 1..], next[e.slot := next[q[k].slot]][q[k].slot := e.slot];
    forall h | 0 <= h < |r| ensures NodeOk(r, priority, n, h) {
      Shifted(q, e, k + 1, h);
      if h != k + 1 { assert NodeOk(q, priority, next, if h <= k then h else h - 1); }
    }
    forall h, j | 0 <= h < j < |r| ensures r[h].slot != r[j].slot {
      Shifted(q, e, k + 1, h);
      Shifted(q, e, k + 1, j);
    }
  }

  class Pool {
    const used: array<bool>
    const priority: array<int>
    const next: array<int>
    const work: array<Work>
    var head: int
    var current: int
    ghost var queue: seq<Entry>
    ghost var runners: seq<Runner>
    ghost var arrivals: nat
    ghost var finished: set<nat>

    ghost function Abs(): State
      reads this, used
    {
      State(queue, used[..], current, runners, arrivals, finished)
    }

    ghost predicate Sizes()
      reads this
    {
      && used.Length == priority.Length == next.Length == work.Length == MAX_TASKS
      && priority != next
    }

    /** The links and priorities of the pool hold the queue. */
    ghost predicate List()
      reads this, priority, next
    {
      Sizes() && head == LinkAfter(queue, -1) && Linked(queue, priority[..], next[..])
    }

    ghost predicate Valid()
      reads this, used, priority, next, work
    {
      List() && Inv(Abs()) && Works(queue, work[..])
    }

    constructor ()
      ensures Valid() && Abs() == BOOT && fresh(used) && fresh(priority) && fresh(next) && fresh(work)
    {
      used := new bool[MAX_TASKS](_ => false);
      priority := new int[MAX_TASKS];
      next := new int[MAX_TASKS];
      work := new Work[MAX_TASKS](_ => Work(0, 0));
      head, current := NULL, IDLE_PRIORITY;
      queue, runners, arrivals, finished := [], [], 0, {};
      new;
      BootInv();
      assert used[..] == BOOT.used;
    }

    /** The search for a free slot. */
    method FindSlot() returns (i: nat)
      requires Sizes()
      ensures i == FreeSlot(used[..])
    {
      i := 0;
      while i < MAX_TASKS
        invariant 0 <= i <= MAX_TASKS && FreeSlot(used[..]) == i + FreeSlot(used[i..])
      {
        assert used[i..][1..] == used[i + 1..];
        if !used[i] { return; }
        i := i + 1;
      }
    }

    /** The insertion into the list, for a slot that is not in it. */
    method LinkIn(i: nat, ghost e: Entry)
      requires List() && i < MAX_TASKS && e.slot == i && e.priority == priority[i] && SlotUnused(queue, i)
      modifies this`head, this`queue, next
      ensures List() && queue == Insert(old(queue), e)
    {
      hide Linked, Insert;
      var p := priority[i];
      ghost var q, pr, nx := queue, priority[..], next[..];
      HeadNode(q, pr, nx);
      if head == NULL || p < priority[head] {
        InsertIsAt(q, e, 0);
        FrontOk(q, e, pr, nx);
        next[i] := head;
        head := i;
        queue := [e] + q;
        assert next[..] == nx[i := LinkAfter(q, -1)];
        assert q[..0] + [e] + q[0..] == [e] + q;
      } else {
        var curr;
        ghost var k;
        curr, k := FindPlace(p);
        InsertIsAt(q, e, k + 1);
        AfterOk(q, e, pr, nx, k);
        next[i] := next[curr];
        next[curr] := i;
        queue := q[..k + 1] + [e] + q[k + 1..];
        assert next[..] == nx[i := nx[curr]][curr := i];
      }
    }

    /** The walk along the list to the last node that is at least as urgent. */
    method FindPlace(p: int) returns (curr: int, ghost k: nat)
      requires List() && queue != [] && queue[0].priority <= p
      ensures k < |queue| && curr == queue[k].slot
      ensures (forall h :: 0 <= h <= k ==> queue[h].priority <= p) && (k + 1 < |queue| ==> p < queue[k + 1].priority)
    {
      curr, k := head, 0;
      assert NodeOk(queue, priority[..], next[..], 0);
      if |queue| > 1 { assert NodeOk(queue, priority[..], next[..], 1); }
      while next[curr] != NULL && priority[next[curr]] <= p
        invariant 0 <= k < |queue| && curr == queue[k].slot && NodeOk(queue, priority[..], next[..], k)
        invariant k + 1 < |queue| ==> NodeOk(queue, priority[..], next[..], k + 1)
        invariant forall h :: 0 <= h <= k ==> queue[h].priority <= p
        decreases |queue| - k
      {
        k := k + 1;
        curr := next[curr];
        if k + 1 < |queue| { assert NodeOk(queue, priority[..], next[..], k + 1); }
      }
    }

    /** add_task: the task goes behind every queued one that is at least as urgent; when all slots
        are in use it is dropped. */
    method Add(w: Work, p: int)
      requires Valid()
      modifies this`head, this`queue, this`arrivals, used, priority, next, work
      ensures Valid() && Abs() == AddTask(old(Abs()), w, p)
      ensures if forall j :: 0 <= j < used.Length ==> old(used[j]) then Abs() == old(Abs())
              else exists i: nat, k: nat :: PlacedAt(old(Abs()), Abs(), w, p, i, k)
    {
      hide Inv, Insert, FreeSlot, Linked, PlacedAt, Works;
      AddKeeps(Abs(), w, p);
      AddPlaces(Abs(), w, p);
      var i := FindSlot();
      if i == MAX_TASKS { return; }
      ghost var e := Entry(i, p, arrivals, w);
      FreeNotQueued(Abs(), i);
      used[i] := true;
      work[i] := w;
      priority[i] := p;
      OtherSlot(queue, old(priority[..]), priority[..], next[..], i, p);
      ghost var k := InsertPlace(queue, e);
      WorksAdded(queue, e, k, old(work[..]));
      LinkIn(i, e);
      arrivals := arrivals + 1;
    }

    /** The call of run_preemptive_tasks at the end of a trap: one more activation, at its loop. */
    method Enter()
      requires Valid() && !InnermostAtLoop(Abs())
      modifies this`runners
      ensures Valid() && Abs() == Next(old(Abs()), TaskModel.Enter)
    {
      hide Inv;
      EnterKeeps(Abs());
      runners := runners + [AtLoop];
    }

    /** The top of the loop of run_preemptive_tasks: the head of the queue, if it beats the current
        priority; its slot, its work and the priority to restore. */
    method TakeNext() returns (taken: bool, idx: int, w: Work, oldPriority: int)
      requires Valid() && InnermostAtLoop(Abs())
      modifies this`head, this`queue, this`current, this`runners
      ensures Valid() && taken == Beats(old(Abs()))
      ensures Abs() == if taken then BeginTask(old(Abs())) else Next(old(Abs()), Leave)
      ensures taken ==> idx == old(queue)[0].slot && w == old(queue)[0].work && oldPriority == old(current)
    {
      hide Inv, Beats;
      HeadBeats(Abs());
      if |queue| > 0 { assert NodeOk(queue, priority[..], next[..], 0); }
      if head == NULL || priority[head] >= current {
        LeaveKeeps(Abs());
        runners := runners[..|runners| - 1];
        return false, 0, Work(0, 0), 0;
      }
      BeginKeeps(Abs());
      idx := head;
      oldPriority := current;
      w := work[idx];
      head := next[idx];
      current := priority[idx];
      runners := runners[..|runners| - 1] + [InCallback(queue[0], oldPriority)];
      ghost var q := queue;
      queue := queue[1..];
      taken := true;
      forall h | 0 <= h < |queue| ensures NodeOk(queue, priority[..], next[..], h) {
        assert queue[h] == q[h + 1] && NodeOk(q, priority[..], next[..], h + 1);
      }
    }

    /** The end of an iteration: the callback of slot idx is back. */
    method Finish(idx: nat, oldPriority: int)
      requires Valid() && runners != [] && runners[|runners| - 1].InCallback?
      requires idx == runners[|runners| - 1].task.slot && oldPriority == runners[|runners| - 1].old_
      modifies this`current, this`runners, this`finished, used
      ensures Valid() && Abs() == FinishTask(old(Abs()))
    {
      hide Inv;
      FinishKeeps(Abs());
      ExecutingSlot(Abs());
      current := oldPriority;
      used[idx] := false;
      finished := finished + {runners[|runners| - 1].task.arrival};
      runners := runners[..|runners| - 1] + [AtLoop];
    }
  }

  lemma HeadNode(q: seq<Entry>, priority: seq<int>, next: seq<int>)
    requires Linked(q, priority, next)
    ensures q != [] ==> q[0].slot < |priority| && priority[q[0].slot] == q[0].priority
  {
    if q != [] { assert NodeOk(q, priority, next, 0); }
  }

  lemma Shifted(q: seq<Entry>, e: Entry, k: nat, h: nat)
    requires 0 < k <= |q| && h <= |q|
    ensures var r := q[..k] + [e] + q[k..];
            r[h] == (if h < k then q[h] else if h == k then e else q[h - 1])
            && LinkAfter(r, h) == if h + 1 < k then LinkAfter(q, h) else if h + 1 == k then e.slot
                                  else if h == k then LinkAfter(q, k - 1) else LinkAfter(q, h - 1)
  {
  }

  /** A write to a slot that is not queued does not touch the list. */
  lemma OtherSlot(q: seq<Entry>, priority: seq<int>, priority': seq<int>, next: seq<int>, i: nat, p: int)
    requires i < |priority| && SlotUnused(q, i) && Linked(q, priority, next) && priority' == priority[i := p]
    ensures Linked(q, priority', next)
  {
    forall k | 0 <= k < |q| ensures NodeOk(q, priority', next, k) {
      assert NodeOk(q, priority, next, k);
    }
  }

  lemma FreeNotQueued(s: State, i: nat)
    requires Inv(s) && i < MAX_TASKS && i < |s.used| && !s.used[i]
    ensures SlotUnused(s.queue, i)
  {
    forall k | 0 <= k < |s.queue| ensures s.queue[k].slot != i {
      assert s.queue[k] in Pending(s);
    }
  }

  lemma HeadBeats(s: State)
    ensures Beats(s) <==> s.queue != [] && s.queue[0].priority < s.current
  {
  }

  lemma ExecutingSlot(s: State)
    requires Inv(s) && s.runners != [] && s.runners[|s.runners| - 1].InCallback?
    ensures s.runners[|s.runners| - 1].task.slot < |s.used|
  {
    assert s.runners[|s.runners| - 1].task in Pending(s);
  }
}
