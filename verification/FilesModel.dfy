/** Open files on values (lab7/src/vfs.c:185-313, lab7/src/syscall.c:210-222 and 456-490,
    lab7/src/tmpfs.c:149-186): handles shared between descriptor tables, each counting the slots
    that refer to it, and tmpfs contents of at most a page. */
module FilesModel {
  import opened Bytes

  const MAX_FD := 16
  const MAX_FILE_SIZE := 4096
  const WORD64 := 0x1_0000_0000_0000_0000

  datatype Option<T> = None | Some(value: T)

  datatype Handle = Handle(vnode: nat, pos: nat, refs: int)

  /** A tmpfs file: its size and the page behind it. */
  datatype Contents = Contents(size: nat, data: seq<byte>)

  type Table = seq<Option<nat>>

  datatype Files = Files(handles: map<nat, Handle>, tables: map<nat, Table>, contents: map<nat, Contents>, next: nat)

  // ---------------------------------------------------------------- invariant

  /** The descriptor slots, over all processes, that refer to handle h. */
  ghost function Slots(t: map<nat, Table>, h: nat): set<(nat, nat)> {
    set pid, i: nat | pid in t && i < |t[pid]| && t[pid][i] == Some(h) :: (pid, i)
  }

  predicate TableOk(f: Files, pid: nat)
    requires pid in f.tables
  {
    |f.tables[pid]| == MAX_FD && forall i :: 0 <= i < MAX_FD && f.tables[pid][i].Some? ==> f.tables[pid][i].value in f.handles
  }

  ghost predicate RefsOk(f: Files, h: nat)
    requires h in f.handles
  {
    f.handles[h].refs == |Slots(f.tables, h)| && h < f.next
  }

  predicate PosOk(f: Files, h: nat)
    requires h in f.handles
  {
    f.handles[h].vnode in f.contents ==> f.handles[h].pos <= f.contents[f.handles[h].vnode].size
  }

  predicate FileOk(c: Contents) { c.size <= MAX_FILE_SIZE == |c.data| }

  /** Every handle counts its slots and has one; every position is within its file; every file
      fits its page. */
  ghost predicate Inv(f: Files) {
    && (forall pid :: pid in f.tables ==> TableOk(f, pid))
    && (forall h :: h in f.handles ==> RefsOk(f, h) && f.handles[h].refs > 0)
    && (forall h :: h in f.handles ==> PosOk(f, h))
    && (forall v :: v in f.contents ==> FileOk(f.contents[v]))
  }

  // ---------------------------------------------------------------- descriptors

  function SetSlot(t: map<nat, Table>, pid: nat, i: nat, x: Option<nat>): map<nat, Table>
    requires pid in t && i < |t[pid]|
  {
    t[pid := t[pid][i := x]]
  }

  lemma SlotsAfterSet(t: map<nat, Table>, pid: nat, i: nat, x: Option<nat>, h: nat)
    requires pid in t && i < |t[pid]|
    ensures Slots(SetSlot(t, pid, i, x), h) == (Slots(t, h) - {(pid, i)}) + (if x == Some(h) then {(pid, i)} else {})
    ensures (pid, i) in Slots(t, h) <==> t[pid][i] == Some(h)
  {
    var t' := SetSlot(t, pid, i, x);
    forall q, j: nat ensures (q, j) in Slots(t', h) <==> (q, j) in (Slots(t, h) - {(pid, i)}) + (if x == Some(h) then {(pid, i)} else {}) {
    }
  }

  /** An empty slot takes a reference to a handle. */
  function Attach(f: Files, pid: nat, i: nat, h: nat): Files
    requires pid in f.tables && i < |f.tables[pid]| && h in f.handles
  {
    f.(tables := SetSlot(f.tables, pid, i, Some(h)), handles := f.handles[h := f.handles[h].(refs := f.handles[h].refs + 1)])
  }

  /** A slot gives its reference up: vfs_close and the cleared slot. */
  function Detach(f: Files, pid: nat, i: nat): Files
    requires pid in f.tables && i < |f.tables[pid]|
  {
    if f.tables[pid][i].Some? && f.tables[pid][i].value in f.handles then
      var h := f.tables[pid][i].value;
      var refs := f.handles[h].refs - 1;
      f.(tables := SetSlot(f.tables, pid, i, None),
         handles := if refs == 0 then f.handles - {h} else f.handles[h := f.handles[h].(refs := refs)])
    else f
  }

  /** A new handle in an empty slot. */
  function OpenAt(f: Files, pid: nat, i: nat, vnode: nat): Files
    requires pid in f.tables && i < |f.tables[pid]|
  {
    f.(tables := SetSlot(f.tables, pid, i, Some(f.next)), handles := f.handles[f.next := Handle(vnode, 0, 1)], next := f.next + 1)
  }

  lemma SetKeepsTables(f: Files, f': Files, pid: nat, i: nat, x: Option<nat>)
    requires Inv(f) && pid in f.tables && i < MAX_FD && |f.tables[pid]| == MAX_FD && f'.tables == SetSlot(f.tables, pid, i, x)
    requires x.Some? ==> x.value in f'.handles
    requires forall h :: h in f.handles && h !in f'.handles ==> Slots(f'.tables, h) == {}
    ensures forall q :: q in f'.tables ==> TableOk(f', q)
  {
    forall q | q in f'.tables ensures TableOk(f', q) {
      assert TableOk(f, q);
      forall j | 0 <= j < MAX_FD && f'.tables[q][j].Some? ensures f'.tables[q][j].value in f'.handles {
        var h := f'.tables[q][j].value;
        assert (q, j) in Slots(f'.tables, h);
      }
    }
  }

  lemma AttachKeeps(f: Files, pid: nat, i: nat, h: nat)
    requires Inv(f) && pid in f.tables && i < MAX_FD && |f.tables[pid]| == MAX_FD && f.tables[pid][i] == None && h in f.handles
    ensures Inv(Attach(f, pid, i, h))
  {
    hide Slots, SetSlot, RefsOk, PosOk, TableOk;
    var f' := Attach(f, pid, i, h);
    forall g | g in f'.handles ensures RefsOk(f', g) && f'.handles[g].refs > 0 && PosOk(f', g) {
      AttachHandle(f, pid, i, h, g);
    }
    SetKeepsTables(f, f', pid, i, Some(h));
  }

  lemma AttachHandle(f: Files, pid: nat, i: nat, h: nat, g: nat)
    requires pid in f.tables && i < |f.tables[pid]| && f.tables[pid][i] == None && h in f.handles && g in f.handles
    requires RefsOk(f, g) && PosOk(f, g) && f.handles[g].refs > 0
    ensures g in Attach(f, pid, i, h).handles && RefsOk(Attach(f, pid, i, h), g) && PosOk(Attach(f, pid, i, h), g)
    ensures Attach(f, pid, i, h).handles[g].refs > 0
  {
    hide Slots, SetSlot;
    SlotsAfterSet(f.tables, pid, i, Some(h), g);
  }

  lemma OpenKeeps(f: Files, pid: nat, i: nat, vnode: nat)
    requires Inv(f) && pid in f.tables && i < MAX_FD && |f.tables[pid]| == MAX_FD && f.tables[pid][i] == None
    ensures f.next !in f.handles && Inv(OpenAt(f, pid, i, vnode))
  {
    hide Slots, SetSlot;
    var f' := OpenAt(f, pid, i, vnode);
    assert f.next in f.handles ==> RefsOk(f, f.next);
    NoSlots(f, f.next);
    forall g | g in f'.handles ensures RefsOk(f', g) && f'.handles[g].refs > 0 {
      assert g in f.handles ==> RefsOk(f, g);
      SlotsAfterSet(f.tables, pid, i, Some(f.next), g);
    }
    forall g | g in f'.handles ensures PosOk(f', g) {
      assert g in f.handles ==> PosOk(f, g);
    }
    SetKeepsTables(f, f', pid, i, Some(f.next));
  }

  lemma NoSlots(f: Files, h: nat)
    requires Inv(f) && h !in f.handles
    ensures Slots(f.tables, h) == {}
  {
    forall q, j: nat | q in f.tables && j < |f.tables[q]| ensures f.tables[q][j] != Some(h) {
      assert TableOk(f, q);
    }
  }

  /** Closing one slot: the handle goes exactly when that was its last slot. */
  lemma DetachKeeps(f: Files, pid: nat, i: nat)
    requires Inv(f) && pid in f.tables && i < MAX_FD && |f.tables[pid]| == MAX_FD
    ensures Inv(Detach(f, pid, i))
    ensures f.tables[pid][i].Some? ==>
              var h := f.tables[pid][i].value;
              h in f.handles && (h in Detach(f, pid, i).handles <==> Slots(f.tables, h) != {(pid, i)})
  {
    hide Slots, SetSlot, RefsOk, PosOk;
    assert TableOk(f, pid);
    if f.tables[pid][i].Some? {
      var h := f.tables[pid][i].value;
      var f' := Detach(f, pid, i);
      LastSlot(f, pid, i);
      forall g | g in f'.handles ensures RefsOk(f', g) && f'.handles[g].refs > 0 && PosOk(f', g) {
        DetachHandle(f, pid, i, g);
      }
      SetKeepsTables(f, f', pid, i, None);
    }
  }

  lemma LastSlot(f: Files, pid: nat, i: nat)
    requires pid in f.tables && i < |f.tables[pid]| && f.tables[pid][i].Some?
    requires var h := f.tables[pid][i].value; h in f.handles && RefsOk(f, h)
    ensures var h := f.tables[pid][i].value;
            && (h in Detach(f, pid, i).handles <==> Slots(f.tables, h) != {(pid, i)})
            && (h !in Detach(f, pid, i).handles ==> Slots(Detach(f, pid, i).tables, h) == {})
  {
    hide Slots, SetSlot;
    var h := f.tables[pid][i].value;
    SlotsAfterSet(f.tables, pid, i, None, h);
    OnlyOne(Slots(f.tables, h), (pid, i));
  }

  lemma DetachHandle(f: Files, pid: nat, i: nat, g: nat)
    requires pid in f.tables && i < |f.tables[pid]| && f.tables[pid][i].Some? && f.tables[pid][i].value in f.handles
    requires g in Detach(f, pid, i).handles && g in f.handles && RefsOk(f, g) && PosOk(f, g) && f.handles[g].refs > 0
    ensures RefsOk(Detach(f, pid, i), g) && PosOk(Detach(f, pid, i), g) && Detach(f, pid, i).handles[g].refs > 0
  {
    hide Slots, SetSlot;
    SlotsAfterSet(f.tables, pid, i, None, g);
  }

  lemma OnlyOne(s: set<(nat, nat)>, x: (nat, nat))
    requires x in s
    ensures |s| == 1 <==> s == {x}
    ensures s - {x} == {} <==> s == {x}
  {
    if |s| == 1 {
      assert |s - {x}| == 0;
    }
  }

  // ---------------------------------------------------------------- tables of processes

  function EmptyTable(): (t: Table)
    ensures |t| == MAX_FD && forall i :: 0 <= i < MAX_FD ==> t[i] == None
  {
    seq(MAX_FD, _ => None)
  }

  function NewTable(f: Files, pid: nat): Files { f.(tables := f.tables[pid := EmptyTable()]) }

  lemma NewTableKeeps(f: Files, pid: nat)
    requires Inv(f) && pid !in f.tables
    ensures Inv(NewTable(f, pid))
  {
    var f' := NewTable(f, pid);
    forall h | h in f'.handles ensures RefsOk(f', h) {
      assert RefsOk(f, h);
      assert Slots(f'.tables, h) == Slots(f.tables, h);
    }
    forall q | q in f'.tables ensures TableOk(f', q) {
      assert q in f.tables ==> TableOk(f, q);
    }
    forall h | h in f'.handles ensures PosOk(f', h) {
      assert PosOk(f, h);
    }
  }

  /** sys_fork's loop: the child shares the parent's first n descriptors. */
  function ForkUpTo(f: Files, parent: nat, child: nat, n: nat): (r: Files)
    requires parent in f.tables && child in f.tables && |f.tables[parent]| == |f.tables[child]| == MAX_FD && n <= MAX_FD && parent != child
    ensures r.tables.Keys == f.tables.Keys && r.tables[parent] == f.tables[parent] && |r.tables[child]| == MAX_FD
    ensures forall i :: n <= i < MAX_FD ==> r.tables[child][i] == f.tables[child][i]
  {
    if n == 0 then f
    else
      var g := ForkUpTo(f, parent, child, n - 1);
      if g.tables[parent][n - 1].Some? && g.tables[parent][n - 1].value in g.handles then Attach(g, child, n - 1, g.tables[parent][n - 1].value) else g
  }

  lemma {:induction false} ForkKeeps(f: Files, parent: nat, child: nat, n: nat)
    requires Inv(f) && parent in f.tables && child in f.tables && parent != child && n <= MAX_FD && f.tables[child] == EmptyTable()
    requires |f.tables[parent]| == MAX_FD
    ensures Inv(ForkUpTo(f, parent, child, n))
    ensures forall i :: 0 <= i < n ==> ForkUpTo(f, parent, child, n).tables[child][i] == f.tables[parent][i]
  {
    hide Inv, EmptyTable;
    if n > 0 {
      ForkKeeps(f, parent, child, n - 1);
      var g := ForkUpTo(f, parent, child, n - 1);
      TableIs(g, parent, n - 1);
      if g.tables[parent][n - 1].Some? { AttachKeeps(g, child, n - 1, g.tables[parent][n - 1].value); }
    }
  }

  lemma TableIs(f: Files, pid: nat, i: nat)
    requires Inv(f) && pid in f.tables && i < MAX_FD
    ensures |f.tables[pid]| == MAX_FD && (f.tables[pid][i].Some? ==> f.tables[pid][i].value in f.handles)
  {
    assert TableOk(f, pid);
  }

  /** kill_zombies' loop: the first n descriptors of a process are closed. */
  function CloseUpTo(f: Files, pid: nat, n: nat): (r: Files)
    requires pid in f.tables && |f.tables[pid]| == MAX_FD && n <= MAX_FD
    ensures r.tables.Keys == f.tables.Keys && |r.tables[pid]| == MAX_FD
  {
    if n == 0 then f else Detach(CloseUpTo(f, pid, n - 1), pid, n - 1)
  }

  lemma {:induction false} CloseKeeps(f: Files, pid: nat, n: nat)
    requires Inv(f) && pid in f.tables && |f.tables[pid]| == MAX_FD && n <= MAX_FD
    ensures Inv(CloseUpTo(f, pid, n)) && forall i :: 0 <= i < n ==> CloseUpTo(f, pid, n).tables[pid][i] == None
  {
    hide Inv;
    if n > 0 {
      CloseKeeps(f, pid, n - 1);
      var g := CloseUpTo(f, pid, n - 1);
      TableIs(g, pid, n - 1);
      DetachKeeps(g, pid, n - 1);
    }
  }

  function DropTable(f: Files, pid: nat): Files { f.(tables := f.tables - {pid}) }

  lemma DropKeeps(f: Files, pid: nat)
    requires Inv(f) && pid in f.tables && forall i :: 0 <= i < |f.tables[pid]| ==> f.tables[pid][i] == None
    ensures Inv(DropTable(f, pid))
  {
    var f' := DropTable(f, pid);
    forall h | h in f'.handles ensures RefsOk(f', h) {
      assert RefsOk(f, h);
      assert Slots(f'.tables, h) == Slots(f.tables, h);
    }
    forall q | q in f'.tables ensures TableOk(f', q) {
      assert TableOk(f, q);
    }
    forall h | h in f'.handles ensures PosOk(f', h) {
      assert PosOk(f, h);
    }
  }

  /** sys_fork: a new table that shares every descriptor of the parent. */
  ghost function Forked(f: Files, parent: nat, child: nat): Files
    requires Inv(f) && parent in f.tables && child !in f.tables
  {
    TableIs(f, parent, 0);
    ForkUpTo(NewTable(f, child), parent, child, MAX_FD)
  }

  /** kill_zombies: every descriptor of the process is closed, and its table goes. */
  ghost function Reaped(f: Files, pid: nat): Files
    requires Inv(f) && pid in f.tables
  {
    TableIs(f, pid, 0);
    DropTable(CloseUpTo(f, pid, MAX_FD), pid)
  }

  /** What sharing or closing descriptors of one process leaves alone: other tables, contents, and
      the file and position of every handle that is left. */
  ghost predicate SameOutside(f: Files, g: Files, pid: nat) {
    && g.tables.Keys == f.tables.Keys && (forall q :: q in f.tables && q != pid ==> g.tables[q] == f.tables[q])
    && g.contents == f.contents && g.next == f.next && g.handles.Keys <= f.handles.Keys
    && (forall h :: h in g.handles ==> g.handles[h].vnode == f.handles[h].vnode && g.handles[h].pos == f.handles[h].pos)
  }

  lemma AttachOutside(f: Files, g: Files, pid: nat, i: nat, h: nat)
    requires SameOutside(f, g, pid) && pid in g.tables && i < |g.tables[pid]| && h in g.handles
    ensures SameOutside(f, Attach(g, pid, i, h), pid) && Attach(g, pid, i, h).handles.Keys == g.handles.Keys
  {
  }

  lemma DetachOutside(f: Files, g: Files, pid: nat, i: nat)
    requires SameOutside(f, g, pid) && pid in g.tables && i < |g.tables[pid]|
    ensures SameOutside(f, Detach(g, pid, i), pid)
  {
  }

  lemma SameItself(f: Files, pid: nat)
    ensures SameOutside(f, f, pid)
  {
  }

  lemma {:induction false} ForkOutside(f: Files, parent: nat, child: nat, n: nat)
    requires parent in f.tables && child in f.tables && |f.tables[parent]| == |f.tables[child]| == MAX_FD && n <= MAX_FD && parent != child
    ensures SameOutside(f, ForkUpTo(f, parent, child, n), child)
    ensures ForkUpTo(f, parent, child, n).handles.Keys == f.handles.Keys
  {
    hide SameOutside, Attach;
    if n == 0 {
      SameItself(f, child);
    } else {
      ForkOutside(f, parent, child, n - 1);
      var g := ForkUpTo(f, parent, child, n - 1);
      if g.tables[parent][n - 1].Some? && g.tables[parent][n - 1].value in g.handles {
        AttachOutside(f, g, child, n - 1, g.tables[parent][n - 1].value);
      }
    }
  }

  lemma {:induction false} CloseOutside(f: Files, pid: nat, n: nat)
    requires pid in f.tables && |f.tables[pid]| == MAX_FD && n <= MAX_FD
    ensures SameOutside(f, CloseUpTo(f, pid, n), pid)
  {
    hide SameOutside, Detach;
    if n == 0 {
      SameItself(f, pid);
    } else {
      CloseOutside(f, pid, n - 1);
      DetachOutside(f, CloseUpTo(f, pid, n - 1), pid, n - 1);
    }
  }

  /** Fork adds the child's table, equal to the parent's, and changes nothing else but how often
      each handle is shared: positions are common to parent and child from then on. */
  lemma ForkFrame(f: Files, parent: nat, child: nat)
    requires Inv(f) && parent in f.tables && child !in f.tables
    ensures var g := Forked(f, parent, child);
            && Inv(g) && g.tables == f.tables[child := f.tables[parent]] && g.contents == f.contents && g.next == f.next
            && g.handles.Keys == f.handles.Keys
            && (forall h :: h in g.handles ==> g.handles[h].vnode == f.handles[h].vnode && g.handles[h].pos == f.handles[h].pos)
  {
    hide Inv, ForkUpTo, EmptyTable;
    TableIs(f, parent, 0);
    NewTableKeeps(f, child);
    var e := NewTable(f, child);
    var g := Forked(f, parent, child);
    ForkKeeps(e, parent, child, MAX_FD);
    ForkOutside(e, parent, child, MAX_FD);
    assert g.tables[child] == f.tables[parent];
    assert g.tables == f.tables[child := f.tables[parent]];
  }

  /** Reaping takes away the process's table and exactly the handles that no other process shares. */
  lemma ReapFrame(f: Files, pid: nat)
    requires Inv(f) && pid in f.tables
    ensures var g := Reaped(f, pid);
            && Inv(g) && g.tables == f.tables - {pid} && g.contents == f.contents && g.next == f.next
            && (forall h :: h in g.handles <==> Slots(f.tables - {pid}, h) != {})
            && (forall h :: h in g.handles ==> h in f.handles && g.handles[h].vnode == f.handles[h].vnode && g.handles[h].pos == f.handles[h].pos)
  {
    hide Inv, CloseUpTo, Slots;
    TableIs(f, pid, 0);
    var g := Reaped(f, pid);
    CloseKeeps(f, pid, MAX_FD);
    CloseOutside(f, pid, MAX_FD);
    DropKeeps(CloseUpTo(f, pid, MAX_FD), pid);
    assert g.tables == f.tables - {pid};
    forall h ensures h in g.handles <==> Slots(g.tables, h) != {} {
      HandleHasSlot(g, h);
    }
  }

  lemma HandleHasSlot(f: Files, h: nat)
    requires Inv(f)
    ensures h in f.handles <==> Slots(f.tables, h) != {}
  {
    hide Slots;
    if h in f.handles {
      assert RefsOk(f, h);
    } else {
      NoSlots(f, h);
    }
  }

  // ---------------------------------------------------------------- new files and processes

  /** No files, no handles, no processes. */
  ghost function Empty(): (f: Files)
    ensures Inv(f)
  {
    Files(map[], map[], map[], 0)
  }

  /** A vnode just allocated: no file and no handle has it yet. */
  predicate NewVnode(f: Files, v: nat) {
    v !in f.contents && forall h :: h in f.handles ==> f.handles[h].vnode != v
  }

  /** tmpfs_create: an empty file; the page behind it holds whatever it held before. */
  function NewFile(f: Files, v: nat, page: seq<byte>): Files {
    f.(contents := f.contents[v := Contents(0, page)])
  }

  lemma NewFileKeeps(f: Files, v: nat, page: seq<byte>)
    requires Inv(f) && NewVnode(f, v) && |page| == MAX_FILE_SIZE
    ensures Inv(NewFile(f, v, page))
  {
    hide Slots;
    var f' := NewFile(f, v, page);
    forall h | h in f'.handles ensures RefsOk(f', h) && PosOk(f', h) {
      assert RefsOk(f, h) && PosOk(f, h);
    }
    forall q | q in f'.tables ensures TableOk(f', q) {
      assert TableOk(f, q);
    }
  }

  /** The table of a new process: descriptors 0, 1 and 2 share handle h. */
  function StdTable(h: nat): (t: Table)
    ensures |t| == MAX_FD && forall i :: 0 <= i < MAX_FD ==> t[i] == if i <= 2 then Some(h) else None
  {
    EmptyTable()[0 := Some(h)][1 := Some(h)][2 := Some(h)]
  }

  /** create_user_process: one new handle on the console's vnode, shared by three descriptors. */
  ghost function Spawned(f: Files, pid: nat, vnode: nat): (g: Files)
    requires Inv(f) && pid !in f.tables
  {
    var e := OpenAt(NewTable(f, pid), pid, 0, vnode);
    Attach(Attach(e, pid, 1, f.next), pid, 2, f.next)
  }

  /** The new handle is counted three times, and nothing else changes. */
  lemma SpawnFrame(f: Files, pid: nat, vnode: nat)
    requires Inv(f) && pid !in f.tables
    ensures var g := Spawned(f, pid, vnode);
            && Inv(g) && g.tables == f.tables[pid := StdTable(f.next)] && g.contents == f.contents && g.next == f.next + 1
            && f.next !in f.handles && g.handles == f.handles[f.next := Handle(vnode, 0, 3)]
  {
    hide Inv, EmptyTable;
    NewTableKeeps(f, pid);
    var e := NewTable(f, pid);
    OpenKeeps(e, pid, 0, vnode);
    var o := OpenAt(e, pid, 0, vnode);
    AttachKeeps(o, pid, 1, f.next);
    AttachKeeps(Attach(o, pid, 1, f.next), pid, 2, f.next);
  }

  /** Once no process is left, no handle is. */
  lemma AllClosed(f: Files)
    requires Inv(f) && f.tables == map[]
    ensures f.handles == map[]
  {
    forall h ensures h !in f.handles {
      assert h in f.handles ==> RefsOk(f, h);
      assert Slots(f.tables, h) == {};
    }
  }

  // ---------------------------------------------------------------- tmpfs contents

  /** The bytes of a file, as a reader can see them. */
  function Visible(c: Contents): seq<byte>
    requires FileOk(c)
  {
    c.data[..c.size]
  }

  function Min(a: nat, b: nat): nat { if a < b then a else b }

  /** The bytes written over a file from a position on; the file grows when they reach past its end. */
  function Splice(s: seq<byte>, pos: nat, b: seq<byte>): (r: seq<byte>)
    requires pos <= |s|
    ensures |r| == if pos + |b| > |s| then pos + |b| else |s|
    ensures forall i :: 0 <= i < |r| ==> r[i] == if pos <= i < pos + |b| then b[i - pos] else s[i]
  {
    s[..pos] + b + (if pos + |b| < |s| then s[pos + |b|..] else [])
  }

  /** The length tmpfs_write settles on, in 64-bit arithmetic. */
  function Clip(pos: nat, len: nat): int {
    if (pos + len) % WORD64 > MAX_FILE_SIZE then MAX_FILE_SIZE - pos else len
  }

  /** The check keeps the write inside the page exactly when position plus length does not wrap. */
  lemma ClipFitsIff(pos: nat, len: nat)
    requires pos <= MAX_FILE_SIZE && len < WORD64
    ensures pos + Clip(pos, len) <= MAX_FILE_SIZE <==> pos + len < WORD64
  {
  }

  /** At position 1 a length of 2^64 - 1 wraps to zero, and all of it is accepted. */
  lemma WrappedLengthUnclipped()
    ensures Clip(1, WORD64 - 1) == WORD64 - 1 && 1 + Clip(1, WORD64 - 1) > MAX_FILE_SIZE
  {
  }

  lemma SliceOfSlice(s: seq<byte>, a: nat, b: nat, n: nat)
    requires a <= b <= n <= |s|
    ensures s[..n][a..b] == s[a..b]
  {
  }

  /** tmpfs_read: what is delivered, and the file position after it. */
  function ReadAt(c: Contents, pos: nat, len: nat): (r: seq<byte>)
    requires FileOk(c)
    ensures |r| == if pos >= c.size then 0 else Min(len, c.size - pos)
    ensures r == if pos >= c.size then [] else Visible(c)[pos..pos + |r|]
  {
    if pos >= c.size then [] else
      var n := Min(len, c.size - pos);
      assert c.data[pos..pos + n] == c.data[..c.size][pos..pos + n] by { SliceOfSlice(c.data, pos, pos + n, c.size); }
      c.data[pos..pos + n]
  }

  /** tmpfs_write of n bytes at pos. */
  function WriteAt(c: Contents, pos: nat, b: seq<byte>): Contents
    requires FileOk(c) && pos + |b| <= MAX_FILE_SIZE
  {
    var d: seq<byte> := c.data[..pos] + b + c.data[pos + |b|..];
    Contents(if pos + |b| > c.size then pos + |b| else c.size, d)
  }

  /** A write is a splice of the visible bytes: no byte that was never written becomes visible. */
  lemma WriteSplices(c: Contents, pos: nat, b: seq<byte>)
    requires FileOk(c) && pos <= c.size && pos + |b| <= MAX_FILE_SIZE
    ensures FileOk(WriteAt(c, pos, b)) && Visible(WriteAt(c, pos, b)) == Splice(Visible(c), pos, b)
  {
  }

  // ---------------------------------------------------------------- reading and writing handles

  /** tmpfs_read through a handle; None is the error return. */
  function ReadFile(f: Files, h: nat, len: nat): (Files, Option<seq<byte>>)
    requires Inv(f) && h in f.handles
  {
    var v := f.handles[h].vnode;
    if v !in f.contents then (f, None)
    else
      var r := ReadAt(f.contents[v], f.handles[h].pos, len);
      (f.(handles := f.handles[h := f.handles[h].(pos := f.handles[h].pos + |r|)]), Some(r))
  }

  /** The sum that tmpfs_write checks does not wrap. */
  predicate SumFits(f: Files, h: nat, buf: seq<byte>)
    requires h in f.handles
  {
    f.handles[h].vnode in f.contents ==> f.handles[h].pos + |buf| < WORD64
  }

  /** tmpfs_write through a handle; None is the error return, also for a write of no bytes. */
  function WriteFile(f: Files, h: nat, buf: seq<byte>): (Files, Option<nat>)
    requires Inv(f) && h in f.handles && SumFits(f, h, buf)
  {
    assert PosOk(f, h);
    var v := f.handles[h].vnode;
    if v !in f.contents then (f, None)
    else
      var pos := f.handles[h].pos;
      var n: nat := Clip(pos, |buf|);
      if n == 0 then (f, None)
      else
        (f.(handles := f.handles[h := f.handles[h].(pos := pos + n)],
            contents := f.contents[v := WriteAt(f.contents[v], pos, buf[..n])]), Some(n))
  }

  // ---------------------------------------------------------------- the specification

  datatype Cursor = Cursor(vnode: nat, pos: nat)

  /** Files are byte sequences, open files are positions in them; there are no counts. */
  datatype Plain = Plain(text: map<nat, seq<byte>>, open: map<nat, Cursor>, tables: map<nat, Table>, next: nat)

  function ViewOf(f: Files): Plain
    requires Inv(f)
  {
    Plain(map v | v in f.contents :: Visible(f.contents[v]),
          map h | h in f.handles :: Cursor(f.handles[h].vnode, f.handles[h].pos), f.tables, f.next)
  }

  function PlainRead(a: Plain, h: nat, len: nat): (Plain, Option<seq<byte>>)
    requires h in a.open
  {
    var v, pos := a.open[h].vnode, a.open[h].pos;
    if v !in a.text then (a, None)
    else
      var n := if pos >= |a.text[v]| then 0 else Min(len, |a.text[v]| - pos);
      (a.(open := a.open[h := Cursor(v, pos + n)]), Some(if n == 0 then [] else a.text[v][pos..pos + n]))
  }

  function PlainWrite(a: Plain, h: nat, buf: seq<byte>): (Plain, Option<nat>)
    requires h in a.open
  {
    var v, pos := a.open[h].vnode, a.open[h].pos;
    if v !in a.text || pos > |a.text[v]| || pos >= MAX_FILE_SIZE || buf == [] then (a, None)
    else
      var n := Min(|buf|, MAX_FILE_SIZE - pos);
      (a.(text := a.text[v := Splice(a.text[v], pos, buf[..n])], open := a.open[h := Cursor(v, pos + n)]), Some(n))
  }

  /** The open files that some descriptor still refers to. */
  ghost function Reachable(open: map<nat, Cursor>, t: map<nat, Table>): map<nat, Cursor> {
    map h | h in open && Slots(t, h) != {} :: open[h]
  }

  lemma SameHandles(f: Files, f': Files)
    requires Inv(f) && f'.tables == f.tables && f'.next == f.next && f'.handles.Keys == f.handles.Keys
    requires forall h :: h in f.handles ==> f'.handles[h].refs == f.handles[h].refs && PosOk(f', h)
    requires forall v :: v in f'.contents ==> FileOk(f'.contents[v])
    ensures Inv(f')
  {
    hide Slots, PosOk, FileOk;
    forall h | h in f'.handles ensures RefsOk(f', h) {
      assert RefsOk(f, h);
    }
    forall q | q in f'.tables ensures TableOk(f', q) {
      assert TableOk(f, q);
    }
  }

  /** Reading is reading the byte sequence. */
  lemma ReadRefines(f: Files, h: nat, len: nat)
    requires Inv(f) && h in f.handles
    ensures var (f', r) := ReadFile(f, h, len);
            Inv(f') && (ViewOf(f'), r) == PlainRead(ViewOf(f), h, len)
  {
    hide Slots, RefsOk, TableOk;
    assert PosOk(f, h);
    var (f', r) := ReadFile(f, h, len);
    forall g | g in f.handles ensures PosOk(f', g) {
      assert PosOk(f, g);
    }
    SameHandles(f, f');
    assert ViewOf(f').open == PlainRead(ViewOf(f), h, len).0.open;
  }

  lemma WriteFacts(f: Files, h: nat, buf: seq<byte>)
    requires Inv(f) && h in f.handles && SumFits(f, h, buf) && f.handles[h].vnode in f.contents
    ensures var c, pos := f.contents[f.handles[h].vnode], f.handles[h].pos;
            && FileOk(c) && pos <= c.size && Clip(pos, |buf|) == Min(|buf|, MAX_FILE_SIZE - pos)
  {
    hide Slots, RefsOk, TableOk;
    assert PosOk(f, h);
  }

  lemma WriteKeeps(f: Files, h: nat, buf: seq<byte>)
    requires Inv(f) && h in f.handles && SumFits(f, h, buf)
    ensures Inv(WriteFile(f, h, buf).0)
  {
    hide Slots, RefsOk, TableOk;
    var f' := WriteFile(f, h, buf).0;
    if f.handles[h].vnode in f.contents {
      WriteFacts(f, h, buf);
      forall g | g in f.handles ensures PosOk(f', g) {
        assert PosOk(f, g);
      }
      SameHandles(f, f');
    }
  }

  /** Writing is splicing the byte sequence, cut off at a page. */
  lemma WriteRefines(f: Files, h: nat, buf: seq<byte>)
    requires Inv(f) && h in f.handles && SumFits(f, h, buf)
    ensures var (f', r) := WriteFile(f, h, buf);
            Inv(f') && (ViewOf(f'), r) == PlainWrite(ViewOf(f), h, buf)
  {
    hide Slots, RefsOk, TableOk, WriteAt, Visible, Splice;
    var (f', r) := WriteFile(f, h, buf);
    WriteKeeps(f, h, buf);
    var v := f.handles[h].vnode;
    if v in f.contents {
      WriteFacts(f, h, buf);
      VisibleLength(f.contents[v]);
      if r.Some? {
        WriteSplices(f.contents[v], f.handles[h].pos, buf[..r.value]);
        var a := PlainWrite(ViewOf(f), h, buf).0;
        assert ViewOf(f').text == a.text;
        assert ViewOf(f').open == a.open;
      }
    }
  }

  lemma VisibleLength(c: Contents)
    requires FileOk(c)
    ensures |Visible(c)| == c.size
  {
  }

  // ---------------------------------------------------------------- steps

  datatype Step =
    | CreateFile(vnode: nat, page: seq<byte>)   // tmpfs_create
    | Spawn(pid: nat, vnode: nat)               // create_user_process
    | Open(pid: nat, vnode: nat)                // sys_open of a vnode found or created
    | Close(pid: nat, fd: int)                  // sys_close
    | Fork(parent: nat, child: nat)             // sys_fork
    | Reap(pid: nat)                            // kill_zombies
    | Read(pid: nat, fd: int, len: nat)         // sys_read
    | Write(pid: nat, fd: int, buf: seq<byte>)  // sys_write

  /** The lowest empty slot; the table's length if there is none. */
  function LowestFree(t: Table): (i: nat)
    ensures i <= |t| && (i < |t| ==> t[i] == None) && forall j :: 0 <= j < i ==> t[j].Some?
  {
    if t == [] || t[0].None? then 0 else 1 + LowestFree(t[1..])
  }

  /** The handle behind a descriptor; None for a descriptor out of range or an empty slot. */
  function HandleOf(t: map<nat, Table>, pid: nat, fd: int): Option<nat> {
    if pid in t && 0 <= fd < |t[pid]| then t[pid][fd] else None
  }

  /** Vnodes and process numbers are new where they are made, system calls are made by processes
      that exist, and the sum of a write does not wrap (ClipFitsIff). */
  predicate Legal(f: Files, st: Step) {
    match st
    case CreateFile(v, page) => NewVnode(f, v) && |page| == MAX_FILE_SIZE
    case Spawn(pid, _) => pid !in f.tables
    case Open(pid, _) => pid in f.tables
    case Close(pid, _) => pid in f.tables
    case Fork(parent, child) => parent in f.tables && child !in f.tables
    case Reap(pid) => pid in f.tables
    case Read(pid, _, _) => pid in f.tables
    case Write(pid, fd, buf) =>
      pid in f.tables && var h := HandleOf(f.tables, pid, fd); h.Some? && h.value in f.handles ==> SumFits(f, h.value, buf)
  }

  lemma HandleIs(f: Files, pid: nat, fd: int)
    requires Inv(f) && pid in f.tables
    ensures |f.tables[pid]| == MAX_FD && (HandleOf(f.tables, pid, fd).Some? ==> HandleOf(f.tables, pid, fd).value in f.handles)
  {
    assert TableOk(f, pid);
  }

  /** One step; a bad descriptor or a full table is an error without effect. */
  ghost function Next(f: Files, st: Step): Files
    requires Inv(f) && Legal(f, st)
  {
    match st
    case CreateFile(v, page) => NewFile(f, v, page)
    case Spawn(pid, v) => Spawned(f, pid, v)
    case Open(pid, v) => var i := LowestFree(f.tables[pid]); if i < |f.tables[pid]| then OpenAt(f, pid, i, v) else f
    case Close(pid, fd) => if HandleOf(f.tables, pid, fd).Some? then Detach(f, pid, fd) else f
    case Fork(parent, child) => Forked(f, parent, child)
    case Reap(pid) => Reaped(f, pid)
    case Read(pid, fd, len) =>
      var h := HandleOf(f.tables, pid, fd);
      HandleIs(f, pid, fd);
      if h.Some? then ReadFile(f, h.value, len).0 else f
    case Write(pid, fd, buf) =>
      var h := HandleOf(f.tables, pid, fd);
      HandleIs(f, pid, fd);
      if h.Some? then WriteFile(f, h.value, buf).0 else f
  }

  /** The same step without counts: an open file exists as long as some descriptor refers to it. */
  ghost function PlainNext(a: Plain, st: Step): Plain {
    match st
    case CreateFile(v, _) => a.(text := a.text[v := []])
    case Spawn(pid, v) => Plain(a.text, a.open[a.next := Cursor(v, 0)], a.tables[pid := StdTable(a.next)], a.next + 1)
    case Open(pid, v) =>
      if pid in a.tables && LowestFree(a.tables[pid]) < |a.tables[pid]| then
        Plain(a.text, a.open[a.next := Cursor(v, 0)], SetSlot(a.tables, pid, LowestFree(a.tables[pid]), Some(a.next)), a.next + 1)
      else a
    case Close(pid, fd) =>
      if HandleOf(a.tables, pid, fd).Some? then
        var t := SetSlot(a.tables, pid, fd, None);
        a.(tables := t, open := Reachable(a.open, t))
      else a
    case Fork(parent, child) => if parent in a.tables then a.(tables := a.tables[child := a.tables[parent]]) else a
    case Reap(pid) => a.(tables := a.tables - {pid}, open := Reachable(a.open, a.tables - {pid}))
    case Read(pid, fd, len) =>
      var h := HandleOf(a.tables, pid, fd);
      if h.Some? && h.value in a.open then PlainRead(a, h.value, len).0 else a
    case Write(pid, fd, buf) =>
      var h := HandleOf(a.tables, pid, fd);
      if h.Some? && h.value in a.open then PlainWrite(a, h.value, buf).0 else a
  }

  lemma CreateRefines(f: Files, v: nat, page: seq<byte>)
    requires Inv(f) && Legal(f, CreateFile(v, page))
    ensures Inv(NewFile(f, v, page)) && ViewOf(NewFile(f, v, page)) == PlainNext(ViewOf(f), CreateFile(v, page))
  {
    hide Inv;
    NewFileKeeps(f, v, page);
    assert page[..0] == [];
    assert ViewOf(NewFile(f, v, page)).text == ViewOf(f).text[v := []];
  }

  lemma SpawnRefines(f: Files, pid: nat, v: nat)
    requires Inv(f) && Legal(f, Spawn(pid, v))
    ensures Inv(Spawned(f, pid, v)) && ViewOf(Spawned(f, pid, v)) == PlainNext(ViewOf(f), Spawn(pid, v))
  {
    hide Inv, Spawned, StdTable;
    SpawnFrame(f, pid, v);
    assert ViewOf(Spawned(f, pid, v)).open == ViewOf(f).open[f.next := Cursor(v, 0)];
  }

  lemma OpenRefines(f: Files, pid: nat, v: nat)
    requires Inv(f) && Legal(f, Open(pid, v))
    ensures Inv(Next(f, Open(pid, v))) && ViewOf(Next(f, Open(pid, v))) == PlainNext(ViewOf(f), Open(pid, v))
  {
    hide Inv, SetSlot;
    HandleIs(f, pid, 0);
    var i := LowestFree(f.tables[pid]);
    if i < MAX_FD {
      OpenKeeps(f, pid, i, v);
      assert ViewOf(OpenAt(f, pid, i, v)).open == ViewOf(f).open[f.next := Cursor(v, 0)];
    }
  }

  /** The handles left are the open files that are still reachable. */
  lemma LeftIsReachable(f: Files, g: Files)
    requires Inv(f) && Inv(g) && g.contents == f.contents && g.next == f.next && g.handles.Keys <= f.handles.Keys
    requires forall h :: h in g.handles ==> g.handles[h].vnode == f.handles[h].vnode && g.handles[h].pos == f.handles[h].pos
    ensures ViewOf(g) == ViewOf(f).(tables := g.tables, open := Reachable(ViewOf(f).open, g.tables))
  {
    hide Inv, Slots, Visible;
    forall h ensures h in g.handles <==> Slots(g.tables, h) != {} {
      HandleHasSlot(g, h);
    }
    assert ViewOf(g).open == Reachable(ViewOf(f).open, g.tables);
    assert ViewOf(g).text == ViewOf(f).text;
  }

  lemma CloseRefines(f: Files, pid: nat, fd: int)
    requires Inv(f) && Legal(f, Close(pid, fd))
    ensures Inv(Next(f, Close(pid, fd))) && ViewOf(Next(f, Close(pid, fd))) == PlainNext(ViewOf(f), Close(pid, fd))
  {
    hide Inv, Slots, SetSlot, Reachable;
    HandleIs(f, pid, fd);
    if HandleOf(f.tables, pid, fd).Some? {
      DetachKeeps(f, pid, fd);
      LeftIsReachable(f, Detach(f, pid, fd));
    }
  }

  lemma ForkRefines(f: Files, parent: nat, child: nat)
    requires Inv(f) && Legal(f, Fork(parent, child))
    ensures Inv(Forked(f, parent, child)) && ViewOf(Forked(f, parent, child)) == PlainNext(ViewOf(f), Fork(parent, child))
  {
    hide Inv, Forked;
    ForkFrame(f, parent, child);
    assert ViewOf(Forked(f, parent, child)).open == ViewOf(f).open;
  }

  lemma ReapRefines(f: Files, pid: nat)
    requires Inv(f) && Legal(f, Reap(pid))
    ensures Inv(Reaped(f, pid)) && ViewOf(Reaped(f, pid)) == PlainNext(ViewOf(f), Reap(pid))
  {
    hide Inv, Reaped, Slots, Reachable;
    ReapFrame(f, pid);
    LeftIsReachable(f, Reaped(f, pid));
  }

  /** Each step keeps counts, positions and sizes, and is the step of the plain machine: counting
      slots frees a handle exactly when no descriptor is left that refers to it. */
  lemma Refines(f: Files, st: Step)
    requires Inv(f) && Legal(f, st)
    ensures Inv(Next(f, st)) && ViewOf(Next(f, st)) == PlainNext(ViewOf(f), st)
  {
    hide Inv, ViewOf, NewFile, Spawned, Forked, Reaped, ReadFile, WriteFile, PlainRead, PlainWrite, SumFits;
    match st
    case CreateFile(v, page) => CreateRefines(f, v, page);
    case Spawn(pid, v) => SpawnRefines(f, pid, v);
    case Open(pid, v) => OpenRefines(f, pid, v);
    case Close(pid, fd) => CloseRefines(f, pid, fd);
    case Fork(parent, child) => ForkRefines(f, parent, child);
    case Reap(pid) => ReapRefines(f, pid);
    case Read(pid, fd, len) =>
      HandleIs(f, pid, fd);
      ViewParts(f);
      if HandleOf(f.tables, pid, fd).Some? { ReadRefines(f, HandleOf(f.tables, pid, fd).value, len); }
    case Write(pid, fd, buf) =>
      HandleIs(f, pid, fd);
      ViewParts(f);
      if HandleOf(f.tables, pid, fd).Some? { WriteRefines(f, HandleOf(f.tables, pid, fd).value, buf); }
  }

  lemma ViewParts(f: Files)
    requires Inv(f)
    ensures ViewOf(f).tables == f.tables && ViewOf(f).open.Keys == f.handles.Keys
  {
  }

  // ---------------------------------------------------------------- runs

  ghost predicate Runs(f: Files, steps: seq<Step>)
    requires Inv(f)
    decreases |steps|
  {
    hide Inv, Next, Legal;
    steps == [] || (Legal(f, steps[0]) && (Refines(f, steps[0]); Runs(Next(f, steps[0]), steps[1..])))
  }

  ghost function After(f: Files, steps: seq<Step>): Files
    requires Inv(f) && Runs(f, steps)
    decreases |steps|
  {
    if steps == [] then f
    else
      Refines(f, steps[0]);
      After(Next(f, steps[0]), steps[1..])
  }

  ghost function PlainAfter(a: Plain, steps: seq<Step>): Plain
    decreases |steps|
  {
    if steps == [] then a else PlainAfter(PlainNext(a, steps[0]), steps[1..])
  }

  /** Over every run of creating, opening, sharing, reading, writing, closing and reaping: every
      count is the number of descriptors, no handle is positioned behind the end of its file, and
      what processes see are plain byte sequences, at most a page long, through open files that
      live exactly as long as a descriptor refers to them. */
  lemma {:induction false} RunRefines(f: Files, steps: seq<Step>)
    requires Inv(f) && Runs(f, steps)
    ensures Inv(After(f, steps)) && ViewOf(After(f, steps)) == PlainAfter(ViewOf(f), steps)
    decreases |steps|
  {
    hide Inv, Next, Legal, ViewOf, PlainNext;
    if steps != [] {
      Refines(f, steps[0]);
      RunRefines(Next(f, steps[0]), steps[1..]);
    }
  }

  /** In particular from the state without files and processes. */
  lemma FromEmpty(steps: seq<Step>)
    requires Runs(Empty(), steps)
    ensures Inv(After(Empty(), steps))
    ensures ViewOf(After(Empty(), steps)) == PlainAfter(Plain(map[], map[], map[], 0), steps)
  {
    hide Inv, Runs, After, PlainAfter;
    RunRefines(Empty(), steps);
    assert ViewOf(Empty()) == Plain(map[], map[], map[], 0);
  }
}
