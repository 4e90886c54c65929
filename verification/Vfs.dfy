/** The path code of lab7/src/vfs.c and the directory code of lab7/src/tmpfs.c, character by
    character and slot by slot, proved against VfsModel and VfsChanges. */
module Vfs {
  import opened Bytes
  import opened VfsModel
  import opened VfsChanges
  import opened VfsMounts

  /** A C string of the given text: NUL behind its last character. */
  predicate IsString(p: seq<byte>) { 0 !in p }

  function CharOf(p: seq<byte>, i: nat): byte { if i < |p| then p[i] else 0 }

  lemma CharNul(p: seq<byte>, i: nat)
    requires IsString(p)
    ensures CharOf(p, i) == 0 <==> i >= |p|
  {
  }

  // ---------------------------------------------------------------- cutting a path into components

  /** while (pathname[i] == '/') i++ */
  method SkipSlashes(p: seq<byte>, start: nat) returns (i: nat)
    requires IsString(p) && start <= |p|
    ensures start <= i <= |p| && Components(p[i..]) == Components(p[start..])
    ensures i < |p| ==> p[i] != SLASH
    ensures start < |p| && p[start] == SLASH ==> i > start
  {
    i := start;
    while CharOf(p, i) == SLASH
      invariant start <= i <= |p| && Components(p[i..]) == Components(p[start..])
      invariant start < |p| && p[start] == SLASH ==> i > start || CharOf(p, i) == SLASH
      decreases |p| - i
    {
      SlashFirst(p, i);
      i := i + 1;
    }
  }

  lemma SlashFirst(p: seq<byte>, i: nat)
    requires i < |p| && p[i] == SLASH
    ensures Components(p[i..]) == Components(p[i + 1..])
  {
    assert p[i..][1..] == p[i + 1..];
  }

  /** The inner loop: one component, cut to 15 characters. */
  method NextComponent(p: seq<byte>, start: nat) returns (c: seq<byte>, i: nat)
    requires IsString(p) && start < |p| && p[start] != SLASH
    ensures start < i <= |p| && c != []
    ensures Components(p[start..]) == [c] + Components(p[i..])
  {
    i, c := start, [];
    while CharOf(p, i) != SLASH && CharOf(p, i) != 0
      invariant start <= i <= |p| && c == Take(p[start..i], MAX_NAME - 1) && SLASH !in p[start..i]
      decreases |p| - i
    {
      if |c| < MAX_NAME - 1 {
        c := c + [p[i]];
      }
      assert p[start..i + 1] == p[start..i] + [p[i]];
      i := i + 1;
    }
    CharNul(p, i);
    ComponentEnds(p, start, i);
  }

  lemma ComponentEnds(p: seq<byte>, start: nat, i: nat)
    requires start <= i <= |p| && start < |p| && p[start] != SLASH && SLASH !in p[start..i] && (i == |p| || p[i] == SLASH)
    ensures i > start && Components(p[start..]) == [Take(p[start..i], MAX_NAME - 1)] + Components(p[i..])
  {
    var t := p[start..];
    FirstSlash(t, i - start);
    assert t[..i - start] == p[start..i] && t[i - start..] == p[i..];
  }

  lemma {:induction false} FirstSlash(t: seq<byte>, k: nat)
    requires k <= |t| && SLASH !in t[..k] && (k == |t| || t[k] == SLASH)
    ensures IndexOf(t, SLASH) == k
    decreases k
  {
    if k > 0 {
      assert t[0] == t[..k][0];
      assert t[1..][..k - 1] == t[..k][1..];
      FirstSlash(t[1..], k - 1);
    }
  }

  // ---------------------------------------------------------------- splitting off the last name

  /** The loop over the whole path that finds its last slash, -1 if there is none. */
  method FindLastSlash(p: seq<byte>) returns (r: int)
    requires IsString(p)
    ensures r == LastSlash(p)
  {
    r := -1;
    var i := 0;
    while CharOf(p, i) != 0
      invariant 0 <= i <= |p| && r == LastSlash(p[..i])
      decreases |p| - i
    {
      CharNul(p, i);
      LastSlashStep(p, i);
      if p[i] == SLASH { r := i; }
      i := i + 1;
    }
    CharNul(p, i);
    assert p[..i] == p;
  }

  lemma LastSlashStep(p: seq<byte>, i: nat)
    requires i < |p|
    ensures LastSlash(p[..i + 1]) == if p[i] == SLASH then i else LastSlash(p[..i])
  {
    assert p[..i + 1][..i] == p[..i];
  }

  /** The copies of the parent's path and of the last name into their buffers. */
  method SplitPath(p: seq<byte>) returns (last: int, parent: seq<byte>, name: seq<byte>)
    requires IsString(p) && (LastSlash(p) == -1 ==> |p| < MAX_NAME)
    ensures last == LastSlash(p) && parent == ParentPath(p) && name == FileName(p)
  {
    hide LastSlash;
    last := FindLastSlash(p);
    if last == -1 {
      WholeName(p);
      parent, name := [], p;
    } else {
      parent := CopyPrefix(p, last + 1);
      parent := if last > 0 then parent[..last] else parent[..1];
      name := CopyName(p, last + 1);
      PrefixOfPrefix(p, last);
    }
  }

  lemma PrefixOfPrefix(p: seq<byte>, last: nat)
    requires last == LastSlash(p)
    ensures (if last > 0 then p[..last + 1][..last] else p[..last + 1][..1]) == ParentPath(p)
  {
    hide LastSlash;
    if last == 0 { assert p[..1] == [p[0]]; } else { assert p[..last + 1][..last] == p[..last]; }
  }

  method CopyPrefix(p: seq<byte>, n: nat) returns (r: seq<byte>)
    requires n <= |p|
    ensures r == p[..n]
  {
    var i := 0;
    r := [];
    while i < n
      invariant 0 <= i <= n && r == p[..i]
    {
      r := r + [p[i]];
      i := i + 1;
    }
  }

  method CopyName(p: seq<byte>, start: nat) returns (name: seq<byte>)
    requires IsString(p) && start <= |p|
    ensures name == Take(p[start..], MAX_NAME - 1)
  {
    var i := start;
    name := [];
    while CharOf(p, i) != 0
      invariant start <= i <= |p| && name == Take(p[start..i], MAX_NAME - 1)
      decreases |p| - i
    {
      CharNul(p, i);
      assert p[start..i + 1] == p[start..i] + [p[i]];
      if |name| < MAX_NAME - 1 {
        name := name + [p[i]];
      }
      i := i + 1;
    }
    CharNul(p, i);
    assert p[start..i] == p[start..];
  }

  lemma WholeName(p: seq<byte>)
    requires LastSlash(p) == -1 && |p| < MAX_NAME
    ensures FileName(p) == p && ParentPath(p) == []
  {
    hide LastSlash;
    assert p[0..] == p;
  }

  // ---------------------------------------------------------------- the tree

  class Vfs {
    var nodes: map<nat, Vnode>
    var mounts: seq<Mount>
    const root: nat
    var next: nat

    ghost function Abs(): Fs
      reads this
    {
      Fs(nodes, mounts, root, next)
    }

    /** The hypotheses of path resolution: the tree is well formed and nothing is mounted on the
        root of the root filesystem. */
    ghost predicate Valid()
      reads this
    {
      Wf(Abs()) && RootBare(Abs())
    }

    /** main: an empty tmpfs as the root filesystem, recorded as mounted on itself. */
    constructor ()
      ensures Valid() && AllRecorded(Abs()) && Abs() == BareRoot()
    {
      root := 0;
      next := 1;
      nodes := map[0 := Vnode(None, 0, true, [], NoEntries(), true)];
      mounts := [Mount(0, 0)];
    }

    /** while (v && v->mount) v = v->mount->root */
    method CrossMounts(start: nat) returns (v: nat)
      requires Valid() && start in nodes
      ensures v in nodes && v == Cross(Abs(), start)
    {
      hide Wf, RootBare;
      v := start;
      MountAbove(Abs(), v);
      while nodes[v].mount.Some?
        invariant v in nodes && Cross(Abs(), v) == Cross(Abs(), start)
        decreases next - v
      {
        MountAbove(Abs(), v);
        v := nodes[v].mount.value;
        MountAbove(Abs(), v);
      }
    }

    /** The search of the mount table for a root. */
    method FindMount(v: nat) returns (m: nat)
      ensures m == MountOf(mounts, v)
    {
      m := 0;
      while m < |mounts|
        invariant 0 <= m <= |mounts| && MountOf(mounts, v) == m + MountOf(mounts[m..], v)
      {
        if mounts[m].root == v { break; }
        m := m + 1;
      }
    }

    /** The ".." branch. */
    method GoUp(start: nat) returns (v: nat)
      requires Valid() && start in nodes
      ensures v in nodes && v == Up(Abs(), start)
    {
      hide Wf, RootBare, MountOf, Cross;
      v := start;
      if v == root { return; }
      while true
        invariant v in nodes && v != root && Pop(Abs(), v) == Pop(Abs(), start)
        decreases v
      {
        var m := FindMount(v);
        if m == |mounts| { break; }
        MountBelow(Abs(), v);
        v := mounts[m].mountpoint;
      }
      SixteenEntries(Abs(), v);
      if v != root { v := nodes[v].parent; }
      v := CrossMounts(v);
    }

    /** tmpfs_lookup: the slots of a directory, in order. */
    method DirLookup(dir: nat, name: seq<byte>) returns (r: Option<nat>)
      requires Valid() && dir in nodes
      ensures r == Child(Abs(), dir, name)
    {
      hide Wf, RootBare;
      SixteenEntries(Abs(), dir);
      EntriesInside(Abs(), dir);
      if !nodes[dir].isDir { return None; }
      var entries := nodes[dir].entries;
      var i := 0;
      while i < MAX_ENTRIES
        invariant 0 <= i <= MAX_ENTRIES && SlotOf(Abs(), entries, name) == i + SlotOf(Abs(), entries[i..], name)
      {
        if entries[i].Some? && nodes[entries[i].value].name == name {
          return entries[i];
        }
        i := i + 1;
      }
      return None;
    }

    /** vfs_lookup_from */
    method LookupFrom(base: nat, path: seq<byte>) returns (r: Option<nat>)
      requires Valid() && base in nodes && IsString(path)
      ensures r == Lookup(Abs(), base, path)
    {
      hide Wf, RootBare, Components, Step;
      if path == [] { return None; }
      var v, idx := base, 0;
      SixteenEntries(Abs(), base);
      assert path[0..] == path;
      if path[0] == SLASH {
        v := root;
        idx := SkipSlashes(path, idx);
      }
      while CharOf(path, idx) != 0
        invariant v in nodes && idx <= |path| && (idx < |path| ==> path[idx] != SLASH)
        invariant Walk(Abs(), v, Components(path[idx..])) == Lookup(Abs(), base, path)
        decreases |path| - idx
      {
        CharNul(path, idx);
        var c, after := NextComponent(path, idx);
        ghost var rest := Components(path[after..]);
        WalkFirst(Abs(), v, c, rest);
        idx := SkipSlashes(path, after);
        var n := StepTo(v, c);
        if n.None? { return None; }
        v := n.value;
      }
      CharNul(path, idx);
      WalkDone(Abs(), v, path, idx);
      return Some(v);
    }

    /** One component: ".", ".." or a directory entry. */
    method StepTo(v: nat, c: seq<byte>) returns (r: Option<nat>)
      requires Valid() && v in nodes
      ensures r == Step(Abs(), v, c)
    {
      hide Wf, RootBare, Up, Child, Cross;
      if c == DOT {
        return Some(v);
      } else if c == DOT_DOT {
        var u := GoUp(v);
        return Some(u);
      }
      var n := DirLookup(v, c);
      if n.None? { return None; }
      var w := CrossMounts(n.value);
      return Some(w);
    }

    /** tmpfs_create and tmpfs_mkdir; the drivers of read-only filesystems always refuse. */
    method AddEntry(dir: nat, name: seq<byte>, isDir: bool) returns (r: Option<nat>)
      requires Valid() && dir in nodes
      modifies this
      ensures if CanAdd(old(Abs()), dir, name) then r == Some(old(next)) && Abs() == Added(old(Abs()), dir, name, isDir)
              else r == None && Abs() == old(Abs())
    {
      hide Wf, RootBare, Child;
      if !nodes[dir].writable { return None; }
      if !nodes[dir].isDir { return None; }
      var dummy := DirLookup(dir, name);
      if dummy.Some? { return None; }
      SixteenEntries(Abs(), dir);
      var slot := FindFree(nodes[dir].entries);
      if slot == MAX_ENTRIES { return None; }
      var v := next;
      next := next + 1;
      nodes := nodes[dir := nodes[dir].(entries := nodes[dir].entries[slot := Some(v)])]
                    [v := Vnode(None, dir, isDir, name, NoEntries(), true)];
      return Some(v);
    }

    method FindFree(entries: seq<Option<nat>>) returns (i: nat)
      requires |entries| == MAX_ENTRIES
      ensures i == FreeSlot(entries)
    {
      i := 0;
      while i < MAX_ENTRIES
        invariant 0 <= i <= MAX_ENTRIES && FreeSlot(entries) == i + FreeSlot(entries[i..])
      {
        if entries[i].None? { break; }
        i := i + 1;
      }
    }

    /** vfs_mkdir (isDir), and the O_CREAT branch of vfs_open (not isDir). */
    method CreateAt(base: nat, path: seq<byte>, isDir: bool) returns (r: Option<nat>)
      requires Valid() && base in nodes && IsString(path) && (LastSlash(path) == -1 ==> |path| < MAX_NAME)
      modifies this
      ensures Valid()
      ensures if CreateOk(old(Abs()), base, path) then r == Some(old(next)) && Abs() == Create(old(Abs()), base, path, isDir)
              else r == None && Abs() == old(Abs())
    {
      hide Wf, RootBare, AllRecorded, CanAdd, Added, Lookup, LastSlash, ParentPath, FileName, IsString;
      var last, parent, name := SplitPath(path);
      var dir := Some(base);
      if last != -1 {
        ParentIsString(path);
        dir := LookupFrom(base, parent);
        if dir.None? { return None; }
      }
      ghost var s := Abs();
      r := AddEntry(dir.value, name, isDir);
      if CanAdd(s, dir.value, name) { AddedRootBare(s, dir.value, name, isDir); }
    }

    /** vfs_open without the handle: the vnode found, or created when the flag asks for it. */
    method Open(base: nat, path: seq<byte>, create: bool) returns (r: Option<nat>)
      requires Valid() && base in nodes && IsString(path)
      requires create && Lookup(Abs(), base, path).None? && LastSlash(path) == -1 ==> |path| < MAX_NAME
      modifies this
      ensures Valid() && (r.Some? ==> r.value in nodes)
      ensures Lookup(old(Abs()), base, path).Some? ==> r == Lookup(old(Abs()), base, path) && Abs() == old(Abs())
      ensures Lookup(old(Abs()), base, path).None? && create && CreateOk(old(Abs()), base, path) ==>
                r == Some(old(next)) && Abs() == Create(old(Abs()), base, path, false)
                && (path != [] ==> Lookup(Abs(), base, path) == r)
      ensures r.None? ==> Abs() == old(Abs())
      ensures r.None? <==> Lookup(old(Abs()), base, path).None? && !(create && CreateOk(old(Abs()), base, path))
    {
      hide Wf, RootBare, CanAdd, Added, Lookup, LastSlash, Create, CreateOk;
      r := LookupFrom(base, path);
      if r.Some? { return; }
      if !create { return None; }
      ghost var s := Abs();
      r := CreateAt(base, path, false);
      if r.Some? {
        CreatedIn(s, base, path, false);
        if path != [] { OpenedResolves(s, base, path); }
      }
    }

    /** The search of the registered filesystems: the first of that name. */
    method FindDriver(registered: seq<Driver>, filesystem: seq<byte>) returns (i: nat)
      ensures i <= |registered| && (i < |registered| ==> registered[i].name == filesystem)
      ensures forall h :: 0 <= h < i ==> registered[h].name != filesystem
    {
      i := 0;
      while i < |registered|
        invariant i <= |registered| && forall h :: 0 <= h < i ==> registered[h].name != filesystem
      {
        if registered[i].name == filesystem { return; }
        i := i + 1;
      }
    }

    /** vfs_mount: nothing changes when the target does not resolve or no filesystem of that name is
        registered; otherwise the first of that name is mounted on what the target resolves to. */
    method MountOn(base: nat, target: seq<byte>, registered: seq<Driver>, filesystem: seq<byte>) returns (ok: bool)
      requires Valid() && base in nodes && IsString(target)
      requires forall i :: 0 <= i < |registered| ==> DriverOk(registered[i])
      modifies this
      ensures ok <==> Lookup(old(Abs()), base, target).Some? && exists i :: 0 <= i < |registered| && registered[i].name == filesystem
      ensures !ok ==> Abs() == old(Abs())
      ensures ok ==> exists i :: 0 <= i < |registered| && registered[i].name == filesystem
                                 && (forall h :: 0 <= h < i ==> registered[h].name != filesystem)
                                 && Abs() == Mounted(old(Abs()), Lookup(old(Abs()), base, target).value, registered[i])
      ensures Wf(Abs())
    {
      hide Wf, RootBare, MountNodes;
      var v := LookupFrom(base, target);
      if v.None? { return false; }
      var i := FindDriver(registered, filesystem);
      if i == |registered| { return false; }
      LinkMount(v.value, registered[i]);
      assert registered[i].name == filesystem;
      return true;
    }

    /** setup_mount, the link from the mountpoint, and the entry in the table if it has room. */
    method LinkMount(v: nat, d: Driver)
      requires Valid() && v in nodes && DriverOk(d)
      modifies this
      ensures Wf(Abs()) && Abs() == Mounted(old(Abs()), v, d)
    {
      hide Wf, RootBare, MountNodes;
      ghost var s := Abs();
      MountedWf(s, v, d);
      MountedRest(s, v, d);
      nodes := MountNodesOf(nodes, next, v, d);
      if |mounts| < MAX_MOUNTS {
        mounts := mounts + [Mount(next, v)];
      }
      next := next + 1 + |d.files|;
    }

    /** vfs_chdir */
    method Chdir(cwd: nat, path: seq<byte>) returns (r: Option<nat>)
      requires Valid() && cwd in nodes && IsString(path)
      ensures r == if Lookup(Abs(), cwd, path).Some? && nodes[Lookup(Abs(), cwd, path).value].isDir then Lookup(Abs(), cwd, path) else None
    {
      hide Wf, RootBare, Lookup;
      r := LookupFrom(cwd, path);
      if r.Some? && !nodes[r.value].isDir { return None; }
    }
  }

  /** setup_mount and the link from the mountpoint. */
  function MountNodesOf(nodes: map<nat, Vnode>, next: nat, v: nat, d: Driver): (r: map<nat, Vnode>)
    requires v in nodes
    ensures forall s: Fs :: s.nodes == nodes && s.next == next ==> r == MountNodes(s, v, d)
  {
    nodes[v := nodes[v].(mount := Some(next))] + map h: nat | next <= h <= next + |d.files| :: NewNode(next, d, h)
  }

  lemma WalkFirst(s: Fs, v: nat, c: seq<byte>, rest: seq<seq<byte>>)
    requires Wf(s) && RootBare(s) && v in s.nodes
    ensures Walk(s, v, [c] + rest) == if Step(s, v, c).Some? then Walk(s, Step(s, v, c).value, rest) else None
  {
    hide Wf, RootBare, Step;
    assert ([c] + rest)[1..] == rest;
  }

  lemma WalkDone(s: Fs, v: nat, path: seq<byte>, idx: nat)
    requires Wf(s) && RootBare(s) && v in s.nodes && idx == |path|
    ensures Walk(s, v, Components(path[idx..])) == Some(v)
  {
    hide Wf, RootBare, Step;
    assert path[idx..] == [];
  }

  lemma ParentIsString(p: seq<byte>)
    requires IsString(p) && LastSlash(p) >= 0
    ensures IsString(ParentPath(p))
  {
    hide LastSlash;
  }

  lemma CreatedIn(s: Fs, base: nat, p: seq<byte>, isDir: bool)
    requires Wf(s) && RootBare(s) && base in s.nodes && CreateOk(s, base, p)
    ensures s.next in Create(s, base, p, isDir).nodes && base in Create(s, base, p, isDir).nodes
  {
    hide Wf, RootBare, Lookup, Added;
    AddedKeys(s, ParentDir(s, base, p).value, FileName(p), isDir);
  }

  /** A file created because its path did not resolve has a proper last name: the path, unless it
      is empty, now resolves to it. */
  lemma OpenedResolves(s: Fs, base: nat, p: seq<byte>)
    requires Wf(s) && RootBare(s) && base in s.nodes && CreateOk(s, base, p) && Lookup(s, base, p) == None && p != []
    ensures Wf(Create(s, base, p, false)) && RootBare(Create(s, base, p, false)) && base in Create(s, base, p, false).nodes
    ensures Lookup(Create(s, base, p, false), base, p) == Some(s.next)
  {
    hide Wf, RootBare, Lookup, Added, CanAdd, Walk, FileName, ParentPath, Child, Up;
    CreatedResolvesIff(s, base, p, false);
    if FileName(p) == [] {
      NoNameLeft(p);
      TrailingSlash(s, base, p);
    } else if FileName(p) == DOT || FileName(p) == DOT_DOT {
      NamedPath(p);
      LookupByParent(s, base, p);
    }
  }

  /** A path that ends in a slash resolves when its parent's path does. */
  lemma TrailingSlash(s: Fs, base: nat, p: seq<byte>)
    requires Wf(s) && RootBare(s) && base in s.nodes && p != [] && LastSlash(p) == |p| - 1
    requires LastSlash(p) == 0 ==> p == ParentPath(p)
    requires LastSlash(p) > 0 ==> p == ParentPath(p) + [SLASH] && ParentPath(p) != []
    ensures Lookup(s, base, p) == ParentDir(s, base, p)
  {
    hide Wf, RootBare, Lookup, ParentPath, LastSlash;
    if LastSlash(p) > 0 { SlashesDoNotMatter(s, base, ParentPath(p), []); }
  }
}
