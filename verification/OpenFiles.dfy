/** Descriptor tables and tmpfs reads and writes, as the system calls perform them. */
module OpenFiles {
  import opened Bytes
  import opened FilesModel

  /** memcpy into a buffer */
  method Copy(dest: seq<byte>, at: nat, src: seq<byte>, from: nat, n: nat) returns (r: seq<byte>)
    requires at + n <= |dest| && from + n <= |src|
    ensures r == dest[..at] + src[from..from + n] + dest[at + n..]
  {
    r := dest;
    var i := 0;
    while i < n
      invariant 0 <= i <= n && |r| == |dest|
      invariant r == dest[..at] + src[from..from + i] + dest[at + i..]
    {
      r := r[..at + i] + [src[from + i]] + r[at + i + 1..];
      i := i + 1;
    }
  }

  class OpenFiles {
    var handles: map<nat, Handle>
    var tables: map<nat, Table>
    var contents: map<nat, Contents>
    var next: nat

    ghost function Abs(): Files
      reads this
    {
      Files(handles, tables, contents, next)
    }

    ghost predicate Valid()
      reads this
    {
      Inv(Abs())
    }

    constructor ()
      ensures Valid() && Abs() == Empty()
    {
      handles, tables, contents, next := map[], map[], map[], 0;
    }

    /** The part of tmpfs_create that makes a file: empty, in front of a page that is not cleared. */
    method CreateFile(v: nat, page: seq<byte>)
      requires Valid() && Legal(Abs(), Step.CreateFile(v, page))
      modifies this
      ensures Valid() && Abs() == Next(old(Abs()), Step.CreateFile(v, page))
    {
      hide Inv;
      NewFileKeeps(Abs(), v, page);
      contents := contents[v := Contents(0, page)];
    }

    /** The descriptors of create_user_process: one handle on the console, in slots 0, 1 and 2. */
    method CreateProcess(pid: nat, vnode: nat)
      requires Valid() && pid !in tables
      modifies this
      ensures Valid() && Abs() == Next(old(Abs()), Step.Spawn(pid, vnode))
      ensures tables == old(tables)[pid := StdTable(old(next))] && handles == old(handles)[old(next) := Handle(vnode, 0, 3)]
    {
      hide Inv, EmptyTable, Spawned;
      SpawnFrame(Abs(), pid, vnode);
      var h := next;
      var table := EmptyTable();
      handles := handles[h := Handle(vnode, 0, 1)];
      table := table[0 := Some(h)];
      table := table[1 := Some(h)];
      handles := handles[h := handles[h].(refs := handles[h].refs + 1)];
      table := table[2 := Some(h)];
      handles := handles[h := handles[h].(refs := handles[h].refs + 1)];
      assert handles == old(handles)[h := Handle(vnode, 0, 3)];
      tables := tables[pid := table];
      next := next + 1;
    }

    /** The search of a process's table for an empty slot; MAX_FD when it is full. */
    method FindFd(pid: nat) returns (fd: nat)
      requires Valid() && pid in tables
      ensures fd <= MAX_FD && |tables[pid]| == MAX_FD && (fd < MAX_FD ==> tables[pid][fd] == None)
      ensures forall i :: 0 <= i < fd ==> tables[pid][i].Some?
    {
      TableIs(Abs(), pid, 0);
      fd := 0;
      while fd < MAX_FD
        invariant fd <= MAX_FD && forall i :: 0 <= i < fd ==> tables[pid][i].Some?
      {
        if tables[pid][fd].None? { return; }
        fd := fd + 1;
      }
    }

    /** sys_open of a vnode that was found or created: the lowest empty slot gets a new handle
        at position 0; a full table is an error. */
    method Open(pid: nat, vnode: nat) returns (fd: int)
      requires Valid() && pid in tables
      modifies this
      ensures Valid()
      ensures 0 <= fd ==> fd < MAX_FD == |old(tables)[pid]| && old(tables)[pid][fd] == None
                          && Abs() == OpenAt(old(Abs()), pid, fd, vnode) && old(next) !in old(handles)
      ensures forall i :: 0 <= i < fd && i < |old(tables)[pid]| ==> old(tables)[pid][i].Some?
      ensures Abs() == Next(old(Abs()), Step.Open(pid, vnode))
      ensures fd < 0 ==> Abs() == old(Abs()) && forall i :: 0 <= i < |tables[pid]| ==> tables[pid][i].Some?
    {
      hide Inv;
      var i := FindFd(pid);
      LowestIs(tables[pid], i);
      if i == MAX_FD { return -1; }
      OpenKeeps(Abs(), pid, i, vnode);
      handles := handles[next := Handle(vnode, 0, 1)];
      tables := tables[pid := tables[pid][i := Some(next)]];
      next := next + 1;
      fd := i;
    }

    /** sys_close: the slot is emptied; the handle is freed with its last slot. */
    method Close(pid: nat, fd: int) returns (ok: bool)
      requires Valid() && pid in tables
      modifies this
      ensures Valid()
      ensures ok <==> 0 <= fd < |old(tables)[pid]| && old(tables)[pid][fd].Some?
      ensures Abs() == if ok then Detach(old(Abs()), pid, fd) else old(Abs())
      ensures Abs() == Next(old(Abs()), Step.Close(pid, fd))
    {
      hide Inv;
      TableIs(Abs(), pid, 0);
      if fd < 0 || fd >= MAX_FD { return false; }
      if tables[pid][fd].None? { return false; }
      CloseSlot(pid, fd);
      return true;
    }

    /** vfs_close and the cleared slot */
    method CloseSlot(pid: nat, fd: nat)
      requires Valid() && pid in tables && |tables[pid]| == MAX_FD && fd < MAX_FD && tables[pid][fd].Some?
      modifies this
      ensures Valid() && Abs() == Detach(old(Abs()), pid, fd)
    {
      hide Inv;
      TableIs(Abs(), pid, fd);
      DetachKeeps(Abs(), pid, fd);
      var h := tables[pid][fd].value;
      var refs := handles[h].refs - 1;
      handles := if refs == 0 then handles - {h} else handles[h := handles[h].(refs := refs)];
      tables := tables[pid := tables[pid][fd := None]];
    }

    /** sys_fork: the child's table shares every open handle of the parent, and nothing else
        changes but the counts (FilesModel.ForkFrame). */
    method Fork(parent: nat, child: nat)
      requires Valid() && parent in tables && child !in tables
      modifies this
      ensures Valid() && Abs() == Next(old(Abs()), Step.Fork(parent, child))
      ensures tables == old(tables)[child := old(tables)[parent]]
    {
      hide Inv, EmptyTable, Forked, ForkUpTo;
      ForkFrame(Abs(), parent, child);
      ForkedIs(Abs(), parent, child);
      NewTableKeeps(Abs(), child);
      ghost var g := Forked(Abs(), parent, child);
      tables := tables[child := EmptyTable()];
      ghost var f := Abs();
      ForkNone(f, parent, child);
      var i := 0;
      while i < MAX_FD
        invariant 0 <= i <= MAX_FD && Valid() && Abs() == ForkUpTo(f, parent, child, i)
      {
        ShareSlot(parent, child, i, f);
        i := i + 1;
      }
      assert Abs() == g;
    }

    /** The body of that loop. */
    method ShareSlot(parent: nat, child: nat, i: nat, ghost f: Files)
      requires Inv(f) && parent in f.tables && child in f.tables && parent != child && i < MAX_FD
      requires |f.tables[parent]| == |f.tables[child]| == MAX_FD && f.tables[child] == EmptyTable()
      requires Valid() && Abs() == ForkUpTo(f, parent, child, i)
      modifies this
      ensures Valid() && Abs() == ForkUpTo(f, parent, child, i + 1)
    {
      hide Inv, Attach, EmptyTable;
      ForkKeeps(f, parent, child, i + 1);
      TableIs(Abs(), parent, i);
      if tables[parent][i].Some? {
        Share(parent, child, i);
      }
    }

    /** child->fds[i] = parent->fds[i]; ref_count++ */
    method Share(parent: nat, child: nat, i: nat)
      requires parent in tables && child in tables && i < |tables[parent]| && i < |tables[child]|
      requires tables[parent][i].Some? && tables[parent][i].value in handles
      modifies this
      ensures Abs() == Attach(old(Abs()), child, i, old(tables)[parent][i].value)
    {
      var h := tables[parent][i].value;
      tables := tables[child := tables[child][i := Some(h)]];
      handles := handles[h := handles[h].(refs := handles[h].refs + 1)];
    }

    /** kill_zombies: every descriptor of a reaped process is closed, and nothing that another
        process shares goes (FilesModel.ReapFrame). */
    method Reap(pid: nat)
      requires Valid() && pid in tables
      modifies this
      ensures Valid() && Abs() == Next(old(Abs()), Step.Reap(pid))
    {
      hide Inv, Reaped, CloseUpTo;
      ReapFrame(Abs(), pid);
      ReapedIs(Abs(), pid);
      ghost var f := Abs();
      CloseNone(f, pid);
      var i := 0;
      while i < MAX_FD
        invariant 0 <= i <= MAX_FD && Valid() && Abs() == CloseUpTo(f, pid, i)
      {
        CloseOne(pid, i, f);
        i := i + 1;
      }
      tables := tables - {pid};
    }

    /** The body of that loop. */
    method CloseOne(pid: nat, i: nat, ghost f: Files)
      requires Inv(f) && pid in f.tables && |f.tables[pid]| == MAX_FD && i < MAX_FD
      requires Valid() && Abs() == CloseUpTo(f, pid, i)
      modifies this
      ensures Valid() && Abs() == CloseUpTo(f, pid, i + 1)
    {
      hide Inv, Detach;
      CloseKeeps(f, pid, i + 1);
      TableIs(Abs(), pid, i);
      if tables[pid][i].Some? {
        CloseSlot(pid, i);
      } else {
        DetachNothing(Abs(), pid, i);
      }
    }

    /** tmpfs_read */
    method Read(h: nat, len: nat) returns (r: Option<seq<byte>>)
      requires Valid() && h in handles
      modifies this
      ensures Valid() && (Abs(), r) == ReadFile(old(Abs()), h, len)
    {
      hide Inv, ReadAt;
      ReadRefines(Abs(), h, len);
      var v := handles[h].vnode;
      if v !in contents { return None; }
      FileIs(Abs(), h);
      var file, pos := contents[v], handles[h].pos;
      ReadLength(file, pos, len);
      if pos >= file.size {
        handles := handles[h := handles[h].(pos := pos)];
        return Some([]);
      }
      var available := file.size - pos;
      var n := if len > available then available else len;
      var buf := Copy(Blank(n), 0, file.data, pos, n);
      assert buf == file.data[pos..pos + n];
      handles := handles[h := handles[h].(pos := pos + n)];
      return Some(buf);
    }

    /** tmpfs_write */
    method Write(h: nat, buf: seq<byte>) returns (r: Option<nat>)
      requires Valid() && h in handles && SumFits(Abs(), h, buf)
      modifies this
      ensures Valid() && (Abs(), r) == WriteFile(old(Abs()), h, buf)
    {
      hide Inv, WriteAt;
      WriteRefines(Abs(), h, buf);
      var v := handles[h].vnode;
      if v !in contents { return None; }
      FileIs(Abs(), h);
      WriteFacts(Abs(), h, buf);
      var pos, len := handles[h].pos, |buf|;
      if (pos + len) % WORD64 > MAX_FILE_SIZE { len := MAX_FILE_SIZE - pos; }
      if len == 0 { return None; }
      var data := Copy(contents[v].data, pos, buf, 0, len);
      handles := handles[h := handles[h].(pos := pos + len)];
      WriteParts(contents[v], pos, buf[..len], data);
      contents := contents[v := Contents(if pos + len > contents[v].size then pos + len else contents[v].size, data)];
      return Some(len);
    }

    /** sys_read; None is the error return. */
    method SysRead(pid: nat, fd: int, len: nat) returns (r: Option<seq<byte>>)
      requires Valid() && pid in tables
      modifies this
      ensures Valid() && Abs() == Next(old(Abs()), Step.Read(pid, fd, len))
      ensures r == if HandleOf(old(tables), pid, fd).Some? && HandleOf(old(tables), pid, fd).value in old(handles)
                   then ReadFile(old(Abs()), HandleOf(old(tables), pid, fd).value, len).1 else None
    {
      hide Inv, ReadFile;
      HandleIs(Abs(), pid, fd);
      if fd < 0 || fd >= MAX_FD { return None; }
      var h := tables[pid][fd];
      if h.None? { return None; }
      r := Read(h.value, len);
    }

    /** sys_write; None is the error return. */
    method SysWrite(pid: nat, fd: int, buf: seq<byte>) returns (r: Option<nat>)
      requires Valid() && Legal(Abs(), Step.Write(pid, fd, buf))
      modifies this
      ensures Valid() && Abs() == Next(old(Abs()), Step.Write(pid, fd, buf))
      ensures r == if HandleOf(old(tables), pid, fd).Some? && HandleOf(old(tables), pid, fd).value in old(handles)
                   then WriteFile(old(Abs()), HandleOf(old(tables), pid, fd).value, buf).1 else None
    {
      hide Inv, WriteFile, SumFits;
      HandleIs(Abs(), pid, fd);
      if fd < 0 || fd >= MAX_FD { return None; }
      var h := tables[pid][fd];
      if h.None? { return None; }
      r := Write(h.value, buf);
    }
  }

  lemma {:induction false} LowestIs(t: Table, i: nat)
    requires i <= |t| && (i < |t| ==> t[i] == None) && forall j :: 0 <= j < i ==> t[j].Some?
    ensures LowestFree(t) == i
  {
    assert LowestFree(t) >= i;
  }

  lemma ForkNone(f: Files, parent: nat, child: nat)
    requires parent in f.tables && child in f.tables && |f.tables[parent]| == |f.tables[child]| == MAX_FD && parent != child
    ensures ForkUpTo(f, parent, child, 0) == f
  {
  }

  lemma ForkedIs(f: Files, parent: nat, child: nat)
    requires Inv(f) && parent in f.tables && child !in f.tables
    ensures |f.tables[parent]| == MAX_FD
    ensures Forked(f, parent, child) == ForkUpTo(NewTable(f, child), parent, child, MAX_FD)
  {
  }

  lemma CloseNone(f: Files, pid: nat)
    requires pid in f.tables && |f.tables[pid]| == MAX_FD
    ensures CloseUpTo(f, pid, 0) == f
  {
  }

  lemma ReapedIs(f: Files, pid: nat)
    requires Inv(f) && pid in f.tables
    ensures |f.tables[pid]| == MAX_FD && Reaped(f, pid) == DropTable(CloseUpTo(f, pid, MAX_FD), pid)
  {
  }

  lemma DetachNothing(f: Files, pid: nat, i: nat)
    requires pid in f.tables && i < |f.tables[pid]| && f.tables[pid][i] == None
    ensures Detach(f, pid, i) == f
  {
  }

  lemma FileIs(f: Files, h: nat)
    requires Inv(f) && h in f.handles && f.handles[h].vnode in f.contents
    ensures FileOk(f.contents[f.handles[h].vnode])
  {
  }

  lemma ReadLength(c: Contents, pos: nat, len: nat)
    requires FileOk(c)
    ensures ReadAt(c, pos, len) == if pos >= c.size then [] else c.data[pos..pos + Min(len, c.size - pos)]
  {
  }

  lemma WriteParts(c: Contents, pos: nat, b: seq<byte>, data: seq<byte>)
    requires FileOk(c) && pos + |b| <= MAX_FILE_SIZE && data == c.data[..pos] + b + c.data[pos + |b|..]
    ensures Contents(if pos + |b| > c.size then pos + |b| else c.size, data) == WriteAt(c, pos, b)
  {
  }
}
