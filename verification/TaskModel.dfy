/** Deferred tasks with nested preemption (lab4/src/task.c, lab4/main.c:101-137) as a step system:
    a priority queue of pool slots, and the activations of run_preemptive_tasks that interrupts
    nest on top of each other. */
module TaskModel {
  const MAX_TASKS := 64
  const IDLE_PRIORITY := 999

  /** What a task is to do: a callback and its argument. */
  datatype Work = Work(callback: int, arg: int)

  /** A queued task; arrival numbers the accepted tasks in order. */
  datatype Entry = Entry(slot: nat, priority: int, arrival: nat, work: Work)

  /** An activation of run_preemptive_tasks: at the top of its loop, or inside a callback with the
      priority it will restore. */
  datatype Runner = AtLoop | InCallback(task: Entry, old_: int)

  datatype State = State(queue: seq<Entry>, used: seq<bool>, current: int, runners: seq<Runner>, arrivals: nat, finished: set<nat>)

  // ---------------------------------------------------------------- the queue

  /** Behind every queued task of the same or a more urgent priority. */
  function Insert(q: seq<Entry>, e: Entry): (r: seq<Entry>)
    ensures |r| == |q| + 1
  {
    if q == [] || e.priority < q[0].priority then [e] + q else [q[0]] + Insert(q[1..], e)
  }

  /** The lowest free slot; the pool size if there is none. */
  function FreeSlot(used: seq<bool>): (i: nat)
    ensures i <= |used| && (i < |used| ==> !used[i]) && forall j :: 0 <= j < i ==> used[j]
  {
    if used == [] || !used[0] then 0 else 1 + FreeSlot(used[1..])
  }

  /** More urgent, or equally urgent and earlier. */
  predicate Before(a: Entry, b: Entry) { a.priority < b.priority || (a.priority == b.priority && a.arrival < b.arrival) }

  ghost predicate Sorted(q: seq<Entry>) { forall i, j :: 0 <= i < j < |q| ==> Before(q[i], q[j]) }

  lemma {:induction false} InsertMembers(q: seq<Entry>, e: Entry)
    ensures forall x :: x in Insert(q, e) <==> x in q || x == e
    decreases |q|
  {
    if q != [] && e.priority >= q[0].priority { InsertMembers(q[1..], e); }
  }

  /** Inserting the latest arrival keeps the queue sorted and first-in-first-out among equals. */
  lemma {:induction false} InsertSorted(q: seq<Entry>, e: Entry)
    requires Sorted(q) && forall x :: x in q ==> x.arrival < e.arrival
    ensures Sorted(Insert(q, e))
    decreases |q|
  {
    if q != [] && e.priority >= q[0].priority {
      InsertSorted(q[1..], e);
      InsertMembers(q[1..], e);
      var r := Insert(q[1..], e);
      forall j | 0 <= j < |r| ensures Before(q[0], r[j]) {
        assert r[j] in r;
        if r[j] != e {
          var k :| 0 <= k < |q[1..]| && q[1..][k] == r[j];
          assert q[k + 1] == r[j];
        }
      }
    }
  }

  // ---------------------------------------------------------------- invariant

  /** The priority at which the processor runs below the given runners. */
  function Level(runners: seq<Runner>): int {
    if runners == [] then IDLE_PRIORITY
    else
      var last := runners[|runners| - 1];
      if last.InCallback? then last.task.priority else Level(runners[..|runners| - 1])
  }

  /** Each callback runs at a strictly more urgent priority than what it interrupted, and will
      restore that; only the innermost runner can be at the top of its loop. */
  predicate RunnerOk(runners: seq<Runner>, k: nat)
    requires k < |runners|
  {
    match runners[k]
    case AtLoop => k == |runners| - 1
    case InCallback(t, o) => o == Level(runners[..k]) && t.priority < o
  }

  ghost predicate Nested(runners: seq<Runner>) { forall k :: 0 <= k < |runners| ==> RunnerOk(runners, k) }

  /** The tasks being executed. */
  function Executing(runners: seq<Runner>): set<Entry> {
    set k | 0 <= k < |runners| && runners[k].InCallback? :: runners[k].task
  }

  function Queued(q: seq<Entry>): set<Entry> { set e | e in q }

  /** The accepted tasks not yet finished. */
  function Pending(s: State): set<Entry> { Queued(s.queue) + Executing(s.runners) }

  ghost predicate SlotHeld(pending: set<Entry>, i: nat) { exists e :: e in pending && e.slot == i }

  /** A slot is in use exactly when its task is pending, and by only one task. */
  ghost predicate SlotsOk(used: seq<bool>, pending: set<Entry>) {
    && |used| == MAX_TASKS
    && (forall e :: e in pending ==> e.slot < MAX_TASKS && used[e.slot])
    && (forall i :: 0 <= i < MAX_TASKS && used[i] ==> SlotHeld(pending, i))
    && (forall e, e' :: e in pending && e' in pending && e.slot == e'.slot ==> e == e')
  }

  /** Every accepted task is either pending or finished, never both. */
  ghost predicate ArrivalsOk(arrivals: nat, finished: set<nat>, pending: set<Entry>) {
    && (forall e :: e in pending ==> e.arrival < arrivals && e.arrival !in finished)
    && (forall n :: 0 <= n < arrivals ==> n in finished || exists e :: e in pending && e.arrival == n)
    && (forall e, e' :: e in pending && e' in pending && e.arrival == e'.arrival ==> e == e')
    && (forall n :: n in finished ==> n < arrivals)
  }

  /** No task is both queued and executing, or executing twice. */
  ghost predicate OnePlace(q: seq<Entry>, runners: seq<Runner>) {
    && Queued(q) !! Executing(runners)
    && (forall k, h :: 0 <= k < h < |runners| && runners[k].InCallback? && runners[h].InCallback? ==> runners[k].task != runners[h].task)
  }

  ghost predicate Inv(s: State) {
    && Sorted(s.queue) && Nested(s.runners) && s.current == Level(s.runners)
    && SlotsOk(s.used, Pending(s)) && ArrivalsOk(s.arrivals, s.finished, Pending(s)) && OnePlace(s.queue, s.runners)
  }

  // ---------------------------------------------------------------- steps

  datatype Step =
    | Add(work: Work, priority: int)   // add_task, from an interrupt handler or a callback
    | Enter                            // the end of do_trap calls run_preemptive_tasks
    | Begin                            // the loop takes the head of the queue and enables interrupts
    | Finish                           // the callback is back, interrupts are off again
    | Leave                            // nothing queued beats the interrupted priority

  predicate Beats(s: State) { s.queue != [] && s.queue[0].priority < s.current }

  predicate InnermostAtLoop(s: State) { s.runners != [] && s.runners[|s.runners| - 1].AtLoop? }

  /** Interrupts are enabled only inside callbacks and outside all runners. */
  predicate Enabled(s: State, st: Step) {
    match st
    case Add(_, _) => !InnermostAtLoop(s)
    case Enter => !InnermostAtLoop(s)
    case Begin => InnermostAtLoop(s) && Beats(s)
    case Finish => s.runners != [] && !InnermostAtLoop(s)
    case Leave => InnermostAtLoop(s) && !Beats(s)
  }

  function AddTask(s: State, work: Work, priority: int): State {
    var i := FreeSlot(s.used);
    if i == |s.used| then s
    else s.(used := s.used[i := true], queue := Insert(s.queue, Entry(i, priority, s.arrivals, work)), arrivals := s.arrivals + 1)
  }

  function BeginTask(s: State): State
    requires s.queue != [] && s.runners != []
  {
    s.(queue := s.queue[1..], current := s.queue[0].priority,
       runners := s.runners[..|s.runners| - 1] + [InCallback(s.queue[0], s.current)])
  }

  function FinishTask(s: State): State
    requires s.runners != [] && s.runners[|s.runners| - 1].InCallback?
  {
    var r := s.runners[|s.runners| - 1];
    s.(current := r.old_, used := if r.task.slot < |s.used| then s.used[r.task.slot := false] else s.used,
       runners := s.runners[..|s.runners| - 1] + [AtLoop], finished := s.finished + {r.task.arrival})
  }

  function Next(s: State, st: Step): State
    requires Enabled(s, st)
  {
    match st
    case Add(w, p) => AddTask(s, w, p)
    case Enter => s.(runners := s.runners + [AtLoop])
    case Begin => BeginTask(s)
    case Finish => FinishTask(s)
    case Leave => s.(runners := s.runners[..|s.runners| - 1])
  }

  // ---------------------------------------------------------------- nesting

  lemma LevelOfPush(runners: seq<Runner>, r: Runner)
    ensures Level(runners + [r]) == if r.InCallback? then r.task.priority else Level(runners)
  {
    assert (runners + [r])[..|runners|] == runners;
  }

  /** Replacing or dropping what is at the end leaves the runners before it alone. */
  lemma NestedPush(runners: seq<Runner>, r: Runner)
    requires Nested(runners) && (runners != [] ==> runners[|runners| - 1].InCallback?)
    requires r.InCallback? ==> r.old_ == Level(runners) && r.task.priority < r.old_
    ensures Nested(runners + [r])
  {
    var l := runners + [r];
    forall k | 0 <= k < |l| ensures RunnerOk(l, k) {
      assert l[..k] == runners[..k];
      if k < |runners| {
        assert RunnerOk(runners, k);
      }
    }
  }

  lemma NestedPop(runners: seq<Runner>)
    requires Nested(runners) && runners != []
    ensures var l := runners[..|runners| - 1]; Nested(l) && (l != [] ==> l[|l| - 1].InCallback?)
  {
    var l := runners[..|runners| - 1];
    forall k | 0 <= k < |l| ensures RunnerOk(l, k) && l[k].InCallback? {
      assert RunnerOk(runners, k);
      assert l[..k] == runners[..k];
    }
  }

  /** The active priorities on the nesting stack are strictly decreasing, outermost first. */
  lemma {:induction false} PrioritiesDecrease(runners: seq<Runner>, j: nat, k: nat)
    requires Nested(runners) && j < k < |runners| && runners[k].InCallback?
    ensures runners[j].InCallback? && runners[k].task.priority < runners[j].task.priority < IDLE_PRIORITY
    decreases k
  {
    assert RunnerOk(runners, j) && RunnerOk(runners, k);
    assert RunnerOk(runners, k - 1);
    assert runners[..k][..k - 1] == runners[..k - 1];
    BelowIdle(runners, j);
    if j < k - 1 { PrioritiesDecrease(runners, j, k - 1); }
  }

  lemma {:induction false} BelowIdle(runners: seq<Runner>, j: nat)
    requires Nested(runners) && j < |runners| && runners[j].InCallback?
    ensures runners[j].task.priority < IDLE_PRIORITY
    decreases j
  {
    assert RunnerOk(runners, j);
    if j > 0 {
      assert RunnerOk(runners, j - 1);
      BelowIdle(runners, j - 1);
    }
  }

  // ---------------------------------------------------------------- steps keep the invariant

  lemma ExecutingPush(runners: seq<Runner>, r: Runner)
    ensures Executing(runners + [r]) == Executing(runners) + (if r.InCallback? then {r.task} else {})
  {
    var l := runners + [r];
    forall e ensures e in Executing(l) <==> e in Executing(runners) || (r.InCallback? && e == r.task) {
      if e in Executing(runners) {
        var k :| 0 <= k < |runners| && runners[k].InCallback? && runners[k].task == e;
        assert l[k].InCallback? && l[k].task == e;
      }
      if r.InCallback? { assert l[|runners|].task == r.task; }
    }
  }

  lemma DropLast<T>(l: seq<T>)
    requires l != []
    ensures l == l[..|l| - 1] + [l[|l| - 1]]
  {
  }

  lemma AddSlots(used: seq<bool>, pending: set<Entry>, e: Entry)
    requires SlotsOk(used, pending) && e.slot < MAX_TASKS && !used[e.slot]
    ensures SlotsOk(used[e.slot := true], pending + {e})
  {
    var p, u := pending + {e}, used[e.slot := true];
    forall i | 0 <= i < MAX_TASKS && u[i] ensures SlotHeld(p, i) {
      if i == e.slot { assert e in p; } else {
        var x :| x in pending && x.slot == i;
        assert x in p;
      }
    }
  }

  lemma FinishSlots(used: seq<bool>, pending: set<Entry>, e: Entry)
    requires SlotsOk(used, pending) && e in pending
    ensures SlotsOk(used[e.slot := false], pending - {e})
  {
    var p, u := pending - {e}, used[e.slot := false];
    forall i | 0 <= i < MAX_TASKS && u[i] ensures SlotHeld(p, i) {
      var x :| x in pending && x.slot == i;
      assert x in p;
    }
  }

  lemma AddArrivals(n: nat, finished: set<nat>, pending: set<Entry>, e: Entry)
    requires ArrivalsOk(n, finished, pending) && e.arrival == n
    ensures ArrivalsOk(n + 1, finished, pending + {e})
  {
    var p := pending + {e};
    forall m | 0 <= m < n + 1 ensures m in finished || exists x :: x in p && x.arrival == m {
      if m == n { assert e in p; } else if m !in finished {
        var x :| x in pending && x.arrival == m;
        assert x in p;
      }
    }
  }

  lemma FinishArrivals(n: nat, finished: set<nat>, pending: set<Entry>, e: Entry)
    requires ArrivalsOk(n, finished, pending) && e in pending
    ensures ArrivalsOk(n, finished + {e.arrival}, pending - {e})
  {
    var p, f := pending - {e}, finished + {e.arrival};
    forall m | 0 <= m < n ensures m in f || exists x :: x in p && x.arrival == m {
      if m !in f {
        var x :| x in pending && x.arrival == m;
        assert x in p;
      }
    }
  }

  lemma AddKeeps(s: State, work: Work, priority: int)
    requires Inv(s)
    ensures Inv(AddTask(s, work, priority))
  {
    hide Nested, SlotsOk, ArrivalsOk, Executing;
    var i := FreeSlot(s.used);
    if i < |s.used| {
      var e := Entry(i, priority, s.arrivals, work);
      var s' := AddTask(s, work, priority);
      PendingFacts(s, e);
      InsertMembers(s.queue, e);
      InsertSorted(s.queue, e);
      assert Pending(s') == Pending(s) + {e};
      AddSlots(s.used, Pending(s), e);
      AddArrivals(s.arrivals, s.finished, Pending(s), e);
    }
  }

  lemma PendingFacts(s: State, e: Entry)
    requires Inv(s) && e.arrival == s.arrivals
    ensures |s.used| == MAX_TASKS && e !in Pending(s) && forall x :: x in s.queue ==> x.arrival < e.arrival
  {
    forall x | x in s.queue ensures x.arrival < e.arrival {
      assert x in Pending(s);
    }
  }

  lemma EnterKeeps(s: State)
    requires Inv(s) && !InnermostAtLoop(s)
    ensures Inv(s.(runners := s.runners + [AtLoop]))
  {
    hide SlotsOk, ArrivalsOk, Sorted, Executing;
    ExecutingPush(s.runners, AtLoop);
    LevelOfPush(s.runners, AtLoop);
    NestedPush(s.runners, AtLoop);
    assert Executing(s.runners + [AtLoop]) == Executing(s.runners);
  }

  lemma LeaveKeeps(s: State)
    requires Inv(s) && InnermostAtLoop(s)
    ensures Inv(s.(runners := s.runners[..|s.runners| - 1]))
  {
    hide SlotsOk, ArrivalsOk, Sorted, Executing;
    var l := s.runners[..|s.runners| - 1];
    DropLast(s.runners);
    ExecutingPush(l, AtLoop);
    LevelOfPush(l, AtLoop);
    NestedPop(s.runners);
    assert Executing(s.runners) == Executing(l);
  }

  lemma BeginKeeps(s: State)
    requires Inv(s) && InnermostAtLoop(s) && Beats(s)
    ensures Inv(BeginTask(s))
  {
    hide SlotsOk, ArrivalsOk, Executing;
    var l, t := s.runners[..|s.runners| - 1], s.queue[0];
    var r := InCallback(t, s.current);
    DropLast(s.runners);
    ExecutingPush(l, AtLoop);
    ExecutingPush(l, r);
    LevelOfPush(l, AtLoop);
    LevelOfPush(l, r);
    NestedPop(s.runners);
    NestedPush(l, r);
    HeadOut(s.queue);
    var s' := BeginTask(s);
    assert Pending(s') == Pending(s);
    NotExecuting(l, t);
  }

  lemma HeadOut(q: seq<Entry>)
    requires Sorted(q) && q != []
    ensures Sorted(q[1..]) && q[0] !in q[1..] && Queued(q) == Queued(q[1..]) + {q[0]}
  {
    assert q == [q[0]] + q[1..];
  }

  lemma NotExecuting(runners: seq<Runner>, e: Entry)
    ensures e !in Executing(runners) ==> forall k :: 0 <= k < |runners| && runners[k].InCallback? ==> runners[k].task != e
  {
  }

  lemma FinishKeeps(s: State)
    requires Inv(s) && s.runners != [] && !InnermostAtLoop(s)
    ensures Inv(FinishTask(s))
  {
    hide SlotsOk, ArrivalsOk, Executing, Sorted;
    var l, r := s.runners[..|s.runners| - 1], s.runners[|s.runners| - 1];
    DropLast(s.runners);
    ExecutingPush(l, AtLoop);
    ExecutingPush(l, r);
    LevelOfPush(l, AtLoop);
    assert RunnerOk(s.runners, |s.runners| - 1);
    NestedPop(s.runners);
    NestedPush(l, AtLoop);
    LastElsewhere(s.runners);
    var s' := FinishTask(s);
    assert Pending(s') == Pending(s) - {r.task};
    SlotInPool(s.used, Pending(s), r.task);
    FinishSlots(s.used, Pending(s), r.task);
    FinishArrivals(s.arrivals, s.finished, Pending(s), r.task);
  }

  lemma SlotInPool(used: seq<bool>, pending: set<Entry>, e: Entry)
    requires SlotsOk(used, pending) && e in pending
    ensures e.slot < |used|
  {
  }

  lemma LastElsewhere(runners: seq<Runner>)
    requires runners != [] && runners[|runners| - 1].InCallback?
    requires forall k, h :: 0 <= k < h < |runners| && runners[k].InCallback? && runners[h].InCallback? ==> runners[k].task != runners[h].task
    ensures runners[|runners| - 1].task !in Executing(runners[..|runners| - 1])
  {
    var l := runners[..|runners| - 1];
    forall k | 0 <= k < |l| && l[k].InCallback? ensures l[k].task != runners[|runners| - 1].task {
    }
  }

  /** Over any interleaving of interrupts and callbacks the invariant holds. */
  lemma NextKeeps(s: State, st: Step)
    requires Inv(s) && Enabled(s, st)
    ensures Inv(Next(s, st))
  {
    hide Inv;
    match st
    case Add(w, p) => AddKeeps(s, w, p);
    case Enter => EnterKeeps(s);
    case Begin => BeginKeeps(s);
    case Finish => FinishKeeps(s);
    case Leave => LeaveKeeps(s);
  }

  ghost predicate Runs(s: State, steps: seq<Step>)
    decreases |steps|
  {
    steps == [] || (Enabled(s, steps[0]) && Runs(Next(s, steps[0]), steps[1..]))
  }

  ghost function After(s: State, steps: seq<Step>): State
    requires Runs(s, steps)
    decreases |steps|
  {
    if steps == [] then s else After(Next(s, steps[0]), steps[1..])
  }

  const BOOT := State([], seq(MAX_TASKS, _ => false), IDLE_PRIORITY, [], 0, {})

  lemma BootInv()
    ensures Inv(BOOT)
  {
    assert Pending(BOOT) == {};
  }

  lemma {:induction false} RunKeeps(s: State, steps: seq<Step>)
    requires Inv(s) && Runs(s, steps)
    ensures Inv(After(s, steps))
    decreases |steps|
  {
    hide Inv, Next, Enabled;
    if steps != [] {
      NextKeeps(s, steps[0]);
      RunKeeps(Next(s, steps[0]), steps[1..]);
    }
  }

  /** The task the loop takes is the most urgent one pending in the queue, the earliest among
      equals, and beats everything that is executing. */
  lemma BeginTakesFirst(s: State, e: Entry)
    requires Inv(s) && Enabled(s, Begin)
    ensures e in s.queue && e != s.queue[0] ==> Before(s.queue[0], e)
    ensures e in Executing(s.runners) ==> s.queue[0].priority < e.priority
  {
    hide SlotsOk, ArrivalsOk;
    if e in s.queue {
      var i :| 0 <= i < |s.queue| && s.queue[i] == e;
    }
    if e in Executing(s.runners) {
      var k :| 0 <= k < |s.runners| && s.runners[k].InCallback? && s.runners[k].task == e;
      LevelBelow(s.runners, k);
    }
  }

  lemma LevelBelow(runners: seq<Runner>, k: nat)
    requires Nested(runners) && k < |runners| && runners[k].InCallback?
    ensures Level(runners) <= runners[k].task.priority
  {
    var n := |runners| - 1;
    assert RunnerOk(runners, n);
    if runners[n].InCallback? {
      if k < n { PrioritiesDecrease(runners, k, n); }
    } else {
      assert RunnerOk(runners, n - 1);
      if k < n - 1 { PrioritiesDecrease(runners, k, n - 1); }
      assert runners[..n][|runners[..n]| - 1] == runners[n - 1];
    }
  }

  /** run_preemptive_tasks returns exactly when no queued task beats the priority it interrupted,
      and it has restored that priority. */
  lemma LeaveMeansNoneBeats(s: State)
    requires Inv(s) && InnermostAtLoop(s)
    ensures Enabled(s, Leave) <==> forall e :: e in s.queue ==> e.priority >= s.current
    ensures s.current == Level(s.runners[..|s.runners| - 1])
  {
    hide SlotsOk, ArrivalsOk, OnePlace;
    DropLast(s.runners);
    LevelOfPush(s.runners[..|s.runners| - 1], AtLoop);
    if s.queue != [] {
      assert s.queue[0] in s.queue;
      forall e | e in s.queue ensures s.queue[0].priority <= e.priority {
        var i :| 0 <= i < |s.queue| && s.queue[i] == e;
      }
    }
  }

  lemma {:induction false} InsertPlace(q: seq<Entry>, e: Entry) returns (k: nat)
    ensures k <= |q| && Insert(q, e) == q[..k] + [e] + q[k..]
    ensures forall h :: 0 <= h < k ==> q[h].priority <= e.priority
    ensures k < |q| ==> e.priority < q[k].priority
    decreases |q|
  {
    if q == [] || e.priority < q[0].priority {
      k := 0;
      assert q[..0] + [e] + q[0..] == [e] + q;
    } else {
      var j := InsertPlace(q[1..], e);
      k := j + 1;
      assert q[..k] == [q[0]] + q[1..][..j] && q[k..] == q[1..][j..];
    }
  }

  /** A task with its work and priority takes the lowest free slot i and place k of the queue: behind all that are
      at least as urgent, in front of all that are less; nothing else changes. */
  ghost predicate PlacedAt(s: State, s': State, w: Work, p: int, i: nat, k: nat) {
    && i < |s.used| && !s.used[i] && (forall j :: 0 <= j < i ==> s.used[j]) && s'.used == s.used[i := true]
    && k <= |s.queue| && s'.queue == s.queue[..k] + [Entry(i, p, s.arrivals, w)] + s.queue[k..]
    && (forall h :: 0 <= h < k ==> s.queue[h].priority <= p) && (k < |s.queue| ==> p < s.queue[k].priority)
    && s'.arrivals == s.arrivals + 1 && s'.current == s.current && s'.runners == s.runners && s'.finished == s.finished
  }

  /** add_task puts a task of its work and priority into the queue if a slot is free, and otherwise does nothing. */
  lemma AddPlaces(s: State, w: Work, p: int)
    ensures if forall j :: 0 <= j < |s.used| ==> s.used[j] then AddTask(s, w, p) == s
            else exists i: nat, k: nat :: PlacedAt(s, AddTask(s, w, p), w, p, i, k)
  {
    hide Insert;
    var i := FreeSlot(s.used);
    if i < |s.used| {
      assert !s.used[i];
      var k := InsertPlace(s.queue, Entry(i, p, s.arrivals, w));
      assert PlacedAt(s, AddTask(s, w, p), w, p, i, k);
    }
  }

  /** A task that is more urgent than what executes and than all that wait is the next one to run: the
      end of the trap that added it begins it, and keeps the priority it interrupts. */
  lemma UrgentPreempts(s: State, w: Work, p: int)
    requires Inv(s) && !InnermostAtLoop(s) && p < s.current && (forall e :: e in s.queue ==> p < e.priority)
    requires exists i :: 0 <= i < |s.used| && !s.used[i]
    ensures var t := Next(AddTask(s, w, p), Enter);
            && Enabled(AddTask(s, w, p), Enter) && Enabled(t, Begin)
            && Next(t, Begin).current == p && Next(t, Begin).queue == s.queue
            && Next(t, Begin).runners == s.runners + [InCallback(Entry(FreeSlot(s.used), p, s.arrivals, w), s.current)]
  {
    hide Inv, Insert, FreeSlot;
    var e := Entry(FreeSlot(s.used), p, s.arrivals, w);
    InsertFront(s.queue, e);
    var a := AddTask(s, w, p);
    assert a.queue == [e] + s.queue && a.runners == s.runners && a.current == s.current;
    var r := s.runners + [AtLoop];
    assert r[..|r| - 1] == s.runners && ([e] + s.queue)[1..] == s.queue;
  }

  lemma InsertFront(q: seq<Entry>, e: Entry)
    requires forall x :: x in q ==> e.priority < x.priority
    ensures Insert(q, e) == [e] + q
  {
    assert q != [] ==> q[0] in q;
  }

  /** A task is refused exactly when all 64 slots hold pending tasks. */
  lemma RefusedIff(s: State, work: Work, priority: int)
    requires Inv(s)
    ensures AddTask(s, work, priority) == s <==> forall i :: 0 <= i < MAX_TASKS ==> SlotHeld(Pending(s), i)
  {
    hide Sorted, Nested, ArrivalsOk, OnePlace, Pending;
    forall i | 0 <= i < MAX_TASKS ensures s.used[i] <==> SlotHeld(Pending(s), i) {
      if SlotHeld(Pending(s), i) {
        var e :| e in Pending(s) && e.slot == i;
        assert s.used[e.slot];
      }
    }
    var f := FreeSlot(s.used);
    if AddTask(s, work, priority) == s {
      assert f == |s.used|;
      forall i | 0 <= i < MAX_TASKS ensures SlotHeld(Pending(s), i) {
        assert s.used[i];
      }
    } else {
      assert !s.used[f];
    }
  }
}
