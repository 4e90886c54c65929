/** The round-robin scheduler (lab7/src/sched.c, lab7/src/syscall.c:233-292) on sequences: the
    run ring from its head, the zombie list from its head, and the tasks already reaped. */
module SchedModel {
  import opened Seqs

  datatype Option<T> = None | Some(value: T)

  datatype State = State(ring: seq<nat>, zombies: seq<nat>, reaped: set<nat>)

  datatype Step =
    | Create(t: nat)      // thread_create, create_user_process, sys_fork
    | Schedule            // the running task gives up the processor
    | Exit                // thread_exit of the running task
    | Stop(t: nat)        // sys_stop by the running task
    | KillZombies         // idle reaps

  predicate Known(s: State, t: nat) { t in s.ring || t in s.zombies || t in s.reaped }

  /** A task is in exactly one of the ring, the zombie list and the reaped set; idle stays in the ring. */
  ghost predicate Inv(s: State, idle: nat) {
    && Distinct(s.ring) && Distinct(s.zombies) && idle in s.ring
    && (forall t :: t in s.ring ==> t !in s.zombies && t !in s.reaped)
    && (forall t :: t in s.zombies ==> t !in s.reaped)
  }

  /** Task numbers are new; idle neither exits nor is stopped. */
  predicate Enabled(s: State, idle: nat, st: Step) {
    match st
    case Create(t) => !Known(s, t)
    case Exit => s.ring != [] && s.ring[0] != idle
    case Stop(t) => t != idle
    case Schedule => true
    case KillZombies => true
  }

  function Rotate(r: seq<nat>): seq<nat> { if r == [] then [] else r[1..] + [r[0]] }

  function Next(s: State, st: Step): State {
    match st
    case Create(t) => s.(ring := s.ring + [t])
    case Schedule => s.(ring := Rotate(s.ring))
    case Exit => if s.ring == [] then s else s.(ring := s.ring[1..], zombies := [s.ring[0]] + s.zombies)
    case Stop(t) => if t in s.ring && t != s.ring[0] then s.(ring := Remove(s.ring, t), zombies := [t] + s.zombies) else s
    case KillZombies => s.(zombies := [], reaped := s.reaped + set t | t in s.zombies)
  }

  ghost function AllKnown(s: State): set<nat> {
    (set t | t in s.ring) + (set t | t in s.zombies) + s.reaped
  }

  lemma RotateFacts(r: seq<nat>)
    requires Distinct(r)
    ensures Distinct(Rotate(r)) && |Rotate(r)| == |r| && forall t :: t in Rotate(r) <==> t in r
    ensures forall i :: 0 < i < |r| ==> Rotate(r)[i - 1] == r[i]
  {
    if r != [] { assert r == [r[0]] + r[1..]; }
  }

  lemma Prepend(t: nat, l: seq<nat>)
    requires Distinct(l) && t !in l
    ensures Distinct([t] + l)
  {
  }

  /** The task at index k leaves the ring for the zombie list. */
  lemma MoveKeeps(s: State, idle: nat, k: nat, s': State)
    requires Inv(s, idle) && k < |s.ring| && s.ring[k] != idle
    requires s' == s.(ring := s.ring[..k] + s.ring[k + 1..], zombies := [s.ring[k]] + s.zombies)
    ensures Inv(s', idle) && AllKnown(s') == AllKnown(s)
  {
    RemoveAt(s.ring, k);
    RemoveDistinct(s.ring, s.ring[k]);
    Prepend(s.ring[k], s.zombies);
    assert forall t :: t in s'.ring <==> t in s.ring && t != s.ring[k];
    assert forall t :: t in s'.zombies <==> t == s.ring[k] || t in s.zombies;
  }

  lemma ReapKeeps(s: State, idle: nat)
    requires Inv(s, idle)
    ensures Inv(Next(s, KillZombies), idle) && AllKnown(Next(s, KillZombies)) == AllKnown(s)
  {
  }

  /** Each step keeps every task in exactly one place, and loses none. */
  lemma NextKeeps(s: State, idle: nat, st: Step)
    requires Inv(s, idle) && Enabled(s, idle, st)
    ensures Inv(Next(s, st), idle)
    ensures AllKnown(Next(s, st)) == AllKnown(s) + (if st.Create? then {st.t} else {})
  {
    match st
    case Create(t) =>
    case Schedule => RotateFacts(s.ring);
    case Exit =>
      assert s.ring[..0] + s.ring[1..] == s.ring[1..];
      MoveKeeps(s, idle, 0, Next(s, st));
    case Stop(t) =>
      if t in s.ring && t != s.ring[0] {
        var k :| 0 <= k < |s.ring| && s.ring[k] == t;
        RemoveAt(s.ring, k);
        MoveKeeps(s, idle, k, Next(s, st));
      }
    case KillZombies => ReapKeeps(s, idle);
  }

  // ---------------------------------------------------------------- runs

  ghost predicate Runs(s: State, idle: nat, steps: seq<Step>)
    decreases |steps|
  {
    steps == [] || (Enabled(s, idle, steps[0]) && Runs(Next(s, steps[0]), idle, steps[1..]))
  }

  function After(s: State, steps: seq<Step>): State
    decreases |steps|
  {
    if steps == [] then s else After(Next(s, steps[0]), steps[1..])
  }

  /** How often the scheduler is called. */
  function Calls(steps: seq<Step>): nat {
    if steps == [] then 0 else (if steps[0].Schedule? || steps[0].Exit? then 1 else 0) + Calls(steps[1..])
  }

  lemma {:induction false} RunKeeps(s: State, idle: nat, steps: seq<Step>)
    requires Inv(s, idle) && Runs(s, idle, steps)
    ensures Inv(After(s, steps), idle) && AllKnown(s) <= AllKnown(After(s, steps))
    decreases |steps|
  {
    hide Inv, Next, Enabled, AllKnown;
    if steps != [] {
      NextKeeps(s, idle, steps[0]);
      RunKeeps(Next(s, steps[0]), idle, steps[1..]);
    }
  }

  /** One step brings a waiting task closer to the head when it calls the scheduler, and never
      puts it further back. */
  lemma Closer(s: State, idle: nat, st: Step, d: nat) returns (e: nat)
    requires Inv(s, idle) && Enabled(s, idle, st) && 0 < d < |s.ring| && st != Stop(s.ring[d])
    ensures e < |Next(s, st).ring| && Next(s, st).ring[e] == s.ring[d] && e <= d
    ensures st.Schedule? || st.Exit? ==> e == d - 1
  {
    var t := s.ring[d];
    match st
    case Create(_) => e := d;
    case Schedule => RotateFacts(s.ring); e := d - 1;
    case Exit => e := d - 1;
    case KillZombies => e := d;
    case Stop(p) =>
      if p in s.ring && p != s.ring[0] {
        var k :| 0 <= k < |s.ring| && s.ring[k] == p;
        RemoveAt(s.ring, k);
        e := if d < k then d else d - 1;
      } else {
        e := d;
      }
  }

  /** Bounded waiting: a task at distance d from the head is the running task after at most d
      scheduler calls, whatever is created, stopped, reaped or exits in between. */
  lemma {:induction false} RunsWithin(s: State, idle: nat, steps: seq<Step>, d: nat) returns (n: nat)
    requires Inv(s, idle) && Runs(s, idle, steps) && d < |s.ring| && Calls(steps) >= d
    requires forall i :: 0 <= i < |steps| ==> steps[i] != Stop(s.ring[d])
    ensures n <= |steps| && Calls(steps[..n]) <= d
    ensures After(s, steps[..n]).ring != [] && After(s, steps[..n]).ring[0] == s.ring[d]
    decreases |steps|
  {
    hide Inv, Next, Enabled;
    if d == 0 {
      n := 0;
    } else {
      var e := Closer(s, idle, steps[0], d);
      NextKeeps(s, idle, steps[0]);
      var k := RunsWithin(Next(s, steps[0]), idle, steps[1..], e);
      n := k + 1;
      assert steps[..n][1..] == steps[1..][..k] && steps[..n][0] == steps[0];
    }
  }

  // ---------------------------------------------------------------- the end of a task

  /** The step ends task t: it exits, or another task stops it. */
  predicate Ends(s: State, st: Step, t: nat) {
    t in s.ring && ((st.Exit? && s.ring[0] == t) || (st == Stop(t) && s.ring[0] != t))
  }

  /** A step moves the tasks it ends to the zombie list, kill_zombies moves all zombies to the reaped
      tasks, a new task enters the ring, and every other task stays where it is. */
  lemma Moves(s: State, idle: nat, st: Step, t: nat)
    requires Inv(s, idle) && Enabled(s, idle, st)
    ensures t in Next(s, st).ring <==> (t in s.ring && !Ends(s, st, t)) || st == Create(t)
    ensures t in Next(s, st).zombies <==> (t in s.zombies && !st.KillZombies?) || Ends(s, st, t)
    ensures t in Next(s, st).reaped <==> t in s.reaped || (st.KillZombies? && t in s.zombies)
  {
    match st
    case Create(x) =>
    case Schedule => RotateFacts(s.ring);
    case Exit =>
      if t in s.ring && t != s.ring[0] {
        var i :| 0 <= i < |s.ring| && s.ring[i] == t;
        assert s.ring[1..][i - 1] == t;
      }
    case Stop(x) => RemoveDistinct(s.ring, x);
    case KillZombies =>
  }

  lemma OnePlace(s: State, idle: nat, t: nat)
    requires Inv(s, idle)
    ensures t in s.ring ==> t !in s.zombies && t !in s.reaped
    ensures t in s.zombies ==> t !in s.ring && t !in s.reaped
  {
  }

  /** Step i of a run ends task t. */
  predicate EndsAt(s: State, steps: seq<Step>, i: nat, t: nat) {
    i < |steps| && Ends(After(s, steps[..i]), steps[i], t)
  }

  /** The zombies are reaped after step i. */
  predicate ReapedAfter(steps: seq<Step>, i: nat) { exists j :: i < j < |steps| && steps[j].KillZombies? }

  lemma EndsLater(s: State, steps: seq<Step>, i: nat, t: nat)
    requires steps != []
    ensures EndsAt(s, steps, 0, t) <==> Ends(s, steps[0], t)
    ensures EndsAt(s, steps, i + 1, t) <==> EndsAt(Next(s, steps[0]), steps[1..], i, t)
  {
    hide Ends, Next;
    assert steps[..0] == [];
    if i + 1 < |steps| { assert steps[..i + 1][1..] == steps[1..][..i]; }
  }

  lemma ReapedLater(steps: seq<Step>, i: nat)
    requires steps != []
    ensures ReapedAfter(steps, i + 1) <==> ReapedAfter(steps[1..], i)
    ensures ReapedAfter(steps, 0) <==> exists j :: 0 <= j < |steps[1..]| && steps[1..][j].KillZombies?
  {
    assert forall j :: 0 <= j < |steps| - 1 ==> steps[1..][j] == steps[j + 1];
    if j :| i + 1 < j < |steps| && steps[j].KillZombies? { assert steps[1..][j - 1].KillZombies?; }
    if j :| 0 < j < |steps| && steps[j].KillZombies? { assert steps[1..][j - 1].KillZombies?; }
  }

  lemma {:induction false} ReapedStays(s: State, idle: nat, steps: seq<Step>, t: nat)
    requires Inv(s, idle) && Runs(s, idle, steps) && t in s.reaped
    ensures t in After(s, steps).reaped
    decreases |steps|
  {
    hide Inv, Enabled, Ends, Next;
    if steps != [] {
      Moves(s, idle, steps[0], t);
      NextKeeps(s, idle, steps[0]);
      ReapedStays(Next(s, steps[0]), idle, steps[1..], t);
    }
  }

  lemma {:induction false} ZombieReaped(s: State, idle: nat, steps: seq<Step>, t: nat)
    requires Inv(s, idle) && Runs(s, idle, steps) && t in s.zombies
    ensures t in After(s, steps).reaped <==> exists j :: 0 <= j < |steps| && steps[j].KillZombies?
    decreases |steps|
  {
    hide Inv, Enabled, Ends, Next;
    OnePlace(s, idle, t);
    if steps != [] {
      Moves(s, idle, steps[0], t);
      NextKeeps(s, idle, steps[0]);
      if steps[0].KillZombies? {
        ReapedStays(Next(s, steps[0]), idle, steps[1..], t);
      } else {
        ZombieReaped(Next(s, steps[0]), idle, steps[1..], t);
        ReapedLater(steps, 0);
      }
    }
  }

  /** Over every run a task of the ring leaves it exactly when some step ends it, and it is reaped
      exactly when kill_zombies runs after that. */
  lemma {:induction false} LeavesIffEnded(s: State, idle: nat, steps: seq<Step>, t: nat)
    requires Inv(s, idle) && Runs(s, idle, steps) && t in s.ring
    ensures t !in After(s, steps).ring <==> exists i: nat :: EndsAt(s, steps, i, t)
    ensures t in After(s, steps).reaped <==> exists i: nat :: EndsAt(s, steps, i, t) && ReapedAfter(steps, i)
    decreases |steps|
  {
    hide Inv, Enabled, Ends, Next, ReapedAfter, EndsAt;
    OnePlace(s, idle, t);
    if steps == [] {
      NoSteps(s, t);
    } else {
      var r, rest := Next(s, steps[0]), steps[1..];
      Moves(s, idle, steps[0], t);
      NextKeeps(s, idle, steps[0]);
      EndsLater(s, steps, 0, t);
      if Ends(s, steps[0], t) {
        EndsInRing(s, steps[0], t);
        ReapedLater(steps, 0);
        GoneForGood(r, idle, rest, t);
        ZombieReaped(r, idle, rest, t);
        ReapedEarlier(steps);
      } else {
        LeavesIffEnded(r, idle, rest, t);
        EndsShifted(s, steps, t);
      }
    }
  }

  lemma EndsInRing(s: State, st: Step, t: nat)
    requires Ends(s, st, t)
    ensures t in s.ring && !st.Create?
  {
  }

  lemma NoSteps(s: State, t: nat)
    ensures forall i: nat :: !EndsAt(s, [], i, t)
  {
  }

  lemma ReapedEarlier(steps: seq<Step>)
    ensures forall i: nat :: ReapedAfter(steps, i) ==> ReapedAfter(steps, 0)
  {
  }

  /** When the first step does not end the task, a later step does what one of the rest does. */
  lemma EndsShifted(s: State, steps: seq<Step>, t: nat)
    requires steps != [] && !Ends(s, steps[0], t)
    ensures var r, rest := Next(s, steps[0]), steps[1..];
            && ((exists i: nat :: EndsAt(s, steps, i, t)) <==> exists i: nat :: EndsAt(r, rest, i, t))
            && ((exists i: nat :: EndsAt(s, steps, i, t) && ReapedAfter(steps, i))
                <==> exists i: nat :: EndsAt(r, rest, i, t) && ReapedAfter(rest, i))
  {
    hide Ends, EndsAt, Next, ReapedAfter;
    var r, rest := Next(s, steps[0]), steps[1..];
    EndsLater(s, steps, 0, t);
    forall i: nat ensures EndsAt(s, steps, i + 1, t) <==> EndsAt(r, rest, i, t)
      ensures ReapedAfter(steps, i + 1) <==> ReapedAfter(rest, i)
    {
      EndsLater(s, steps, i, t);
      ReapedLater(steps, i);
    }
    if i: nat :| EndsAt(s, steps, i, t) { assert EndsAt(r, rest, i - 1, t); }
    if i: nat :| EndsAt(s, steps, i, t) && ReapedAfter(steps, i) { assert EndsAt(r, rest, i - 1, t) && ReapedAfter(rest, i - 1); }
    if i: nat :| EndsAt(r, rest, i, t) { assert EndsAt(s, steps, i + 1, t); }
    if i: nat :| EndsAt(r, rest, i, t) && ReapedAfter(rest, i) { assert EndsAt(s, steps, i + 1, t) && ReapedAfter(steps, i + 1); }
  }

  // ---------------------------------------------------------------- waitpid

  /** What one round of sys_waitpid's walk around the ring reports: no such task, a zombie, or a
      task that is still running. */
  datatype Poll = Gone | Ended | Busy

  function Round(s: State, pid: nat): Poll { if pid in s.ring then Busy else Gone }

  predicate Heads(s: State, t: nat) { s.ring != [] && s.ring[0] == t }

  /** What task w's sys_waitpid(pid) has returned during a run: whenever w is the running task it
      takes a round; it returns -1 when the task is not found, the pid when it is a zombie, and
      gives up the processor otherwise. */
  function WaitResult(s: State, w: nat, pid: nat, steps: seq<Step>): (r: Option<int>)
    ensures r != None ==> r == Some(-1) || r == Some(pid)
    decreases |steps|
  {
    if Heads(s, w) && Round(s, pid) == Gone then Some(-1)
    else if Heads(s, w) && Round(s, pid) == Ended then Some(pid)
    else if steps == [] then None
    else WaitResult(Next(s, steps[0]), w, pid, steps[1..])
  }

  /** A task that has left the ring never comes back to it. */
  lemma {:induction false} GoneForGood(s: State, idle: nat, steps: seq<Step>, pid: nat)
    requires Inv(s, idle) && Runs(s, idle, steps) && Known(s, pid) && pid !in s.ring
    ensures pid !in After(s, steps).ring
    decreases |steps|
  {
    hide Inv, Enabled;
    if steps != [] {
      NextKeeps(s, idle, steps[0]);
      StaysOut(s, idle, steps[0], pid);
      GoneForGood(Next(s, steps[0]), idle, steps[1..], pid);
    }
  }

  lemma StaysOut(s: State, idle: nat, st: Step, pid: nat)
    requires Inv(s, idle) && Enabled(s, idle, st) && Known(s, pid) && pid !in s.ring
    ensures Known(Next(s, st), pid) && pid !in Next(s, st).ring
  {
    RotateFacts(s.ring);
    if st.Stop? && st.t in s.ring { RemoveDistinct(s.ring, st.t); }
  }

  /** A wait never returns the pid: it returns exactly when the waiting task runs again after the
      task it waits for has left the ring, and then with -1, whether that task exited or was stopped. */
  lemma {:induction false} WaitReturnsIff(s: State, idle: nat, steps: seq<Step>, w: nat, pid: nat)
    requires Inv(s, idle) && Runs(s, idle, steps)
    ensures WaitResult(s, w, pid, steps) != Some(pid)
    ensures WaitResult(s, w, pid, steps) == Some(-1) <==>
            exists i :: 0 <= i <= |steps| && Heads(After(s, steps[..i]), w) && pid !in After(s, steps[..i]).ring
    decreases |steps|
  {
    hide Inv, Enabled, Next;
    var back := exists i :: 0 <= i <= |steps| && Heads(After(s, steps[..i]), w) && pid !in After(s, steps[..i]).ring;
    if Heads(s, w) && pid !in s.ring {
      assert After(s, steps[..0]) == s;
    } else if steps != [] {
      var s', rest := Next(s, steps[0]), steps[1..];
      NextKeeps(s, idle, steps[0]);
      WaitReturnsIff(s', idle, rest, w, pid);
      forall i | 0 < i <= |steps| ensures After(s, steps[..i]) == After(s', rest[..i - 1]) {
        assert steps[..i][1..] == rest[..i - 1] && steps[..i][0] == steps[0];
      }
      if back {
        var i :| 0 <= i <= |steps| && Heads(After(s, steps[..i]), w) && pid !in After(s, steps[..i]).ring;
        assert i != 0;
        assert After(s', rest[..i - 1]) == After(s, steps[..i]);
      }
      if i :| 0 <= i <= |rest| && Heads(After(s', rest[..i]), w) && pid !in After(s', rest[..i]).ring {
        assert After(s, steps[..i + 1]) == After(s', rest[..i]);
      }
    }
  }

  /** And it does return: a waiter at distance d from the head has its answer within d scheduler
      calls of the other task's leaving, whatever happens in between. */
  lemma WaitEnds(s: State, idle: nat, steps: seq<Step>, d: nat, pid: nat)
    requires Inv(s, idle) && Runs(s, idle, steps) && Known(s, pid) && pid !in s.ring
    requires d < |s.ring| && Calls(steps) >= d && forall i :: 0 <= i < |steps| ==> steps[i] != Stop(s.ring[d])
    ensures WaitResult(s, s.ring[d], pid, steps) == Some(-1)
  {
    var n := RunsWithin(s, idle, steps, d);
    RunsPrefix(s, idle, steps, n);
    GoneForGood(s, idle, steps[..n], pid);
    WaitReturnsIff(s, idle, steps, s.ring[d], pid);
  }

  lemma {:induction false} RunsPrefix(s: State, idle: nat, steps: seq<Step>, n: nat)
    requires Runs(s, idle, steps) && n <= |steps|
    ensures Runs(s, idle, steps[..n])
    decreases |steps|
  {
    hide Enabled, Next;
    if n > 0 {
      RunsPrefix(Next(s, steps[0]), idle, steps[1..], n - 1);
      assert steps[..n][1..] == steps[1..][..n - 1];
    }
  }

  lemma {:induction false} ThreeSteps(s: State, idle: nat, a: Step, b: Step, c: Step)
    ensures After(s, [a, b, c]) == Next(Next(Next(s, a), b), c)
    ensures Enabled(s, idle, a) && Enabled(Next(s, a), idle, b) && Enabled(Next(Next(s, a), b), idle, c) ==> Runs(s, idle, [a, b, c])
  {
    hide Next, Enabled;
    var s1, s2, s3 := Next(s, a), Next(Next(s, a), b), Next(Next(Next(s, a), b), c);
    assert [a, b, c][1..] == [b, c] && [b, c][1..] == [c] && [c][1..] == [];
    assert After(s1, [b, c]) == After(s2, [c]);
    assert Runs(s3, idle, []);
    assert Enabled(s2, idle, c) ==> Runs(s2, idle, [c]);
    assert Enabled(s1, idle, b) && Enabled(s2, idle, c) ==> Runs(s1, idle, [b, c]);
  }

  /** A wait for a task that exits: with tasks 2 and 3 and the idle task 1 in the ring, 2 gives up
      the processor, 3 exits, 1 gives up the processor, and 2 is back. */
  lemma WaitForExited()
    ensures var s := State([2, 3, 1], [], {});
            Inv(s, 1) && Runs(s, 1, [Schedule, Exit, Schedule]) && 3 in After(s, [Schedule, Exit, Schedule]).zombies
            && WaitResult(s, 2, 3, [Schedule, Exit, Schedule]) == Some(-1)
  {
    hide WaitResult, Runs, After;
    var s, steps := State([2, 3, 1], [], {}), [Schedule, Exit, Schedule];
    ThreeSteps(s, 1, Schedule, Exit, Schedule);
    assert Next(s, Schedule).ring == [3, 1, 2];
    assert After(s, steps) == State([2, 1], [3], {});
    assert steps[..3] == steps;
    WaitReturnsIff(s, 1, steps, 2, 3);
    assert Heads(After(s, steps[..3]), 2) && 3 !in After(s, steps[..3]).ring;
  }
}
