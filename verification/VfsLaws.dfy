/** What each kind of path component does, and what creating and mounting make visible, stated over
    lookups (lab7/src/vfs.c:23-303, lab7/src/tmpfs.c:10-147). */
module VfsLaws {
  import opened Bytes
  import opened VfsModel
  import opened VfsChanges
  import opened VfsMounts

  // ---------------------------------------------------------------- ".", "/" and ".."

  lemma WalkDot(s: Fs, v: nat, cs: seq<seq<byte>>)
    requires Wf(s) && RootBare(s) && v in s.nodes
    ensures Walk(s, v, [DOT] + cs) == Walk(s, v, cs)
  {
    assert ([DOT] + cs)[1..] == cs;
  }

  lemma LookupDot(s: Fs, v: nat)
    requires Wf(s) && RootBare(s) && v in s.nodes
    ensures Lookup(s, v, DOT) == Some(v)
  {
    hide Wf, RootBare;
    OneComponent(DOT);
    WalkDot(s, v, []);
    assert [DOT] + [] == [DOT];
  }

  /** "." stays where it is, at the end of a path and at its start, on files as well. */
  lemma DotStays(s: Fs, base: nat, p: seq<byte>, q: seq<byte>)
    requires Wf(s) && RootBare(s) && base in s.nodes
    ensures p != [] ==> Lookup(s, base, p + [SLASH] + DOT) == Lookup(s, base, p)
    ensures q != [] && q[0] != SLASH ==> Lookup(s, base, DOT + [SLASH] + q) == Lookup(s, base, q)
    ensures Lookup(s, base, DOT) == Some(base)
  {
    hide Wf, RootBare, Lookup, Step, Walk;
    LookupDot(s, base);
    if p != [] {
      LookupAppend(s, base, p, DOT);
      if Lookup(s, base, p).Some? { LookupDot(s, Lookup(s, base, p).value); }
    }
    if q != [] && q[0] != SLASH { LookupAppend(s, base, DOT, q); }
  }

  /** An absolute path starts at the very root wherever the process is, and what follows its first
      slash is looked up from there. */
  lemma AbsoluteFromRoot(s: Fs, base: nat, q: seq<byte>)
    requires Wf(s) && RootBare(s) && base in s.nodes
    ensures s.root in s.nodes && Lookup(s, base, [SLASH]) == Some(s.root)
    ensures q != [] && q[0] != SLASH ==> Lookup(s, base, [SLASH] + q) == Lookup(s, s.root, q)
  {
    hide Wf, RootBare, Walk;
    SixteenEntries(s, base);
    WalkNone(s, s.root);
    assert [SLASH][1..] == [] && ([SLASH] + q)[1..] == q;
  }

  lemma LookupUp(s: Fs, v: nat)
    requires Wf(s) && RootBare(s) && v in s.nodes
    ensures Lookup(s, v, DOT_DOT) == Some(Up(s, v))
  {
    hide Wf, RootBare, Up;
    OneComponent(DOT_DOT);
    WalkOne(s, v, DOT_DOT);
  }

  /** ".." stays at the very root; on the root of a mount it does what it does on the vnode covered;
      anywhere else it leads to the parent, or to the root of what is mounted there. */
  lemma DotDotLeads(s: Fs, base: nat, v: nat)
    requires Wf(s) && RootBare(s) && base in s.nodes && v in s.nodes
    ensures Lookup(s, base, [SLASH] + DOT_DOT) == Some(s.root)
    ensures Lookup(s, v, DOT_DOT).Some? && s.root in s.nodes
    ensures v == s.root ==> Lookup(s, v, DOT_DOT) == Some(s.root)
    ensures v != s.root && MountOf(s.mounts, v) < |s.mounts| ==>
              var u := s.mounts[MountOf(s.mounts, v)].mountpoint;
              u in s.nodes && u != s.root && Lookup(s, v, DOT_DOT) == Lookup(s, u, DOT_DOT)
    ensures v != s.root && MountOf(s.mounts, v) == |s.mounts| ==>
              var u := s.nodes[v].parent;
              u in s.nodes && Lookup(s, v, DOT_DOT) == Some(Cross(s, u)) && (s.nodes[u].mount == None ==> Cross(s, u) == u)
  {
    hide Wf, RootBare, Lookup, Walk, MountOf;
    SixteenEntries(s, v);
    AbsoluteFromRoot(s, base, DOT_DOT);
    LookupUp(s, s.root);
    LookupUp(s, v);
    if v != s.root && MountOf(s.mounts, v) < |s.mounts| {
      MountBelow(s, v);
      LookupUp(s, s.mounts[MountOf(s.mounts, v)].mountpoint);
    }
  }

  // ---------------------------------------------------------------- names

  /** A name that is neither "." nor "..". */
  predicate Proper(c: seq<byte>) { c != [] && SLASH !in c && c != DOT && c != DOT_DOT }

  /** Slot i of a directory holds a vnode of the given name. */
  predicate IsEntry(s: Fs, v: nat, i: nat, name: seq<byte>) {
    v in s.nodes && i < |s.nodes[v].entries| && s.nodes[v].entries[i].Some?
    && s.nodes[v].entries[i].value in s.nodes && s.nodes[s.nodes[v].entries[i].value].name == name
  }

  ghost predicate HasEntry(s: Fs, v: nat, name: seq<byte>) { exists i: nat :: IsEntry(s, v, i, name) }

  /** The slot is the first of that name. */
  ghost predicate FirstEntry(s: Fs, v: nat, i: nat, name: seq<byte>) {
    IsEntry(s, v, i, name) && forall j :: 0 <= j < i ==> !IsEntry(s, v, j, name)
  }

  lemma ShortName(c: seq<byte>)
    requires Proper(c)
    ensures Take(c, MAX_NAME - 1) != DOT && Take(c, MAX_NAME - 1) != DOT_DOT && c[0] != SLASH
  {
    assert c[0] in c;
  }

  lemma ChildIs(s: Fs, v: nat, name: seq<byte>)
    requires Wf(s) && v in s.nodes
    ensures Child(s, v, name).None? <==> !s.nodes[v].isDir || !HasEntry(s, v, name)
    ensures Child(s, v, name).Some? ==> exists i: nat :: FirstEntry(s, v, i, name) && i < |s.nodes[v].entries| && s.nodes[v].entries[i] == Child(s, v, name)
  {
    hide Wf;
    var i := SlotOf(s, s.nodes[v].entries, name);
    if i < |s.nodes[v].entries| {
      assert IsEntry(s, v, i, name);
      assert FirstEntry(s, v, i, name);
    }
  }

  /** A name leads to the first entry of its first fifteen characters, and through the mounts on it;
      it leads nowhere exactly when the path before it does not resolve, or not to a directory, or
      the directory has no entry of that name. */
  lemma NameLeads(s: Fs, base: nat, p: seq<byte>, c: seq<byte>)
    requires Wf(s) && RootBare(s) && base in s.nodes && p != [] && Proper(c)
    ensures var v, r, name := Lookup(s, base, p), Lookup(s, base, p + [SLASH] + c), Take(c, MAX_NAME - 1);
            && (r.None? <==> v.None? || !s.nodes[v.value].isDir || !HasEntry(s, v.value, name))
            && (r.Some? ==> exists i: nat ::
                  && FirstEntry(s, v.value, i, name) && s.nodes[v.value].entries[i].value in s.nodes
                  && r.value == Cross(s, s.nodes[v.value].entries[i].value))
  {
    hide Wf, RootBare, Lookup, Walk, Child, Take, Cross;
    ShortName(c);
    LookupAppend(s, base, p, c);
    var v := Lookup(s, base, p);
    if v.Some? {
      LookupName(s, v.value, c);
      ChildIs(s, v.value, Take(c, MAX_NAME - 1));
      if Child(s, v.value, Take(c, MAX_NAME - 1)).Some? {
        var i: nat :| FirstEntry(s, v.value, i, Take(c, MAX_NAME - 1)) && s.nodes[v.value].entries[i] == Child(s, v.value, Take(c, MAX_NAME - 1));
      }
    }
  }

  // ---------------------------------------------------------------- what is created

  ghost predicate HasRoom(s: Fs, v: nat) { v in s.nodes && exists i :: 0 <= i < |s.nodes[v].entries| && s.nodes[v].entries[i] == None }

  /** create and mkdir succeed exactly in a directory of a filesystem that can be written, with an empty
      slot, and without an entry of that name. */
  lemma CanAddIff(s: Fs, v: nat, name: seq<byte>)
    requires Wf(s) && v in s.nodes
    ensures CanAdd(s, v, name) <==>
            s.nodes[v].writable && s.nodes[v].isDir && HasRoom(s, v) && !HasEntry(s, v, name)
  {
    hide Wf, Child;
    ChildIs(s, v, name);
    var i := FreeSlot(s.nodes[v].entries);
    if i < |s.nodes[v].entries| { assert s.nodes[v].entries[i] == None; }
  }

  /** The last slash of p/c, and what lies before and behind it. */
  lemma LastSlashOf(p: seq<byte>, c: seq<byte>)
    requires p != [] && SLASH !in c
    ensures var r := p + [SLASH] + c; LastSlash(r) == |p| && r[..|p|] == p && r[|p| + 1..] == c
  {
    hide LastSlash;
    var r := p + [SLASH] + c;
    assert r[|p|] == SLASH;
    forall j | |p| < j < |r| ensures r[j] != SLASH { assert r[j] == c[j - |p| - 1]; }
  }

  /** The parent and the name of p/c. */
  lemma LastName(p: seq<byte>, c: seq<byte>)
    requires p != [] && SLASH !in c
    ensures LastSlash(p + [SLASH] + c) == |p| && ParentPath(p + [SLASH] + c) == p
    ensures FileName(p + [SLASH] + c) == Take(c, MAX_NAME - 1)
  {
    hide Take, LastSlash;
    LastSlashOf(p, c);
  }

  /** The parent and the name of a path with one slash, in front, and of one with none. */
  lemma TopName(c: seq<byte>)
    requires SLASH !in c
    ensures LastSlash([SLASH] + c) == 0 && ParentPath([SLASH] + c) == [SLASH] && FileName([SLASH] + c) == Take(c, MAX_NAME - 1)
    ensures LastSlash(c) == -1 && FileName(c) == Take(c, MAX_NAME - 1)
  {
    hide Take, LastSlash;
    var r := [SLASH] + c;
    assert r[0] == SLASH && r[1..] == c && c[0..] == c;
    forall j | 0 < j < |r| ensures r[j] != SLASH { assert r[j] == c[j - 1]; }
    assert LastSlash(r) == 0;
    forall j | 0 <= j < |c| ensures c[j] != SLASH { assert c[j] in c; }
  }

  /** A directory of a filesystem that can be written, with an empty slot and without an entry of that
      name. */
  ghost predicate Accepts(s: Fs, v: Option<nat>, name: seq<byte>) {
    v.Some? && v.value in s.nodes && s.nodes[v.value].writable && s.nodes[v.value].isDir && HasRoom(s, v.value)
    && !HasEntry(s, v.value, name)
  }

  /** create or mkdir of a path succeeds exactly when what precedes its last name resolves to a directory
      that accepts the name: p for p/c, the very root for /c, the working directory for c. */
  lemma CreateOkIff(s: Fs, base: nat, p: seq<byte>, c: seq<byte>)
    requires Wf(s) && RootBare(s) && base in s.nodes && SLASH !in c
    ensures p != [] ==> (CreateOk(s, base, p + [SLASH] + c) <==> Accepts(s, Lookup(s, base, p), Take(c, MAX_NAME - 1)))
    ensures CreateOk(s, base, [SLASH] + c) <==> Accepts(s, Some(s.root), Take(c, MAX_NAME - 1))
    ensures CreateOk(s, base, c) <==> Accepts(s, Some(base), Take(c, MAX_NAME - 1))
  {
    hide Wf, RootBare, Lookup, CanAdd, HasEntry, Take, LastSlash, ParentPath, FileName, HasRoom;
    TopName(c);
    AbsoluteFromRoot(s, base, []);
    CanAddIff(s, s.root, Take(c, MAX_NAME - 1));
    CanAddIff(s, base, Take(c, MAX_NAME - 1));
    if p != [] {
      LastName(p, c);
      if Lookup(s, base, p).Some? { CanAddIff(s, Lookup(s, base, p).value, Take(c, MAX_NAME - 1)); }
    }
  }

  /** In the empty root everything can be created. */
  lemma FirstCreate(c: seq<byte>)
    requires SLASH !in c
    ensures Wf(BareRoot()) && RootBare(BareRoot()) && CreateOk(BareRoot(), 0, [SLASH] + c) && CreateOk(BareRoot(), 0, c)
  {
    hide LastSlash, Take, Lookup, ParentPath, FileName, CanAdd;
    DotCreated();
    var s := BareRoot();
    assert s.nodes[0].entries[0] == None;
    CreateOkIff(s, 0, [], c);
  }

  /** The new vnode is in the first empty slot of the directory; no other slot and no other vnode
      changes. */
  lemma AddedSlot(s: Fs, dir: nat, name: seq<byte>, isDir: bool)
    requires Wf(s) && dir in s.nodes && CanAdd(s, dir, name)
    ensures var s', e := Added(s, dir, name, isDir), s.nodes[dir].entries;
            && dir in s'.nodes && (exists i :: 0 <= i < |e| && e[i] == None && (forall j :: 0 <= j < i ==> e[j] != None)
                                          && s'.nodes[dir].entries == e[i := Some(s.next)])
            && forall v :: v in s.nodes && v != dir ==> v in s'.nodes && s'.nodes[v] == s.nodes[v]
  {
    hide Wf, Child;
    NextIsNew(s);
    AddedKeeps(s, dir, name, isDir);
    var i := FreeSlot(s.nodes[dir].entries);
    assert s.nodes[dir].entries[i] == None;
  }

  lemma AddedNew(s: Fs, dir: nat, name: seq<byte>, isDir: bool)
    requires Wf(s) && dir in s.nodes && CanAdd(s, dir, name)
    ensures var s' := Added(s, dir, name, isDir);
            && s.next in s'.nodes && s'.nodes[s.next].isDir == isDir && s'.nodes[s.next].writable
            && HasRoom(s', s.next) && forall c :: !HasEntry(s', s.next, c)
  {
    hide Wf, CanAdd;
    NextIsNew(s);
    var s' := Added(s, dir, name, isDir);
    assert s'.nodes[s.next].entries[0] == None;
  }

  /** What mkdir makes is an empty directory, in which everything can be created; what create makes is a
      file, in which nothing can; below either nothing is found yet. */
  lemma CreatedKind(s: Fs, base: nat, p: seq<byte>, isDir: bool, c: seq<byte>)
    requires Wf(s) && RootBare(s) && base in s.nodes && CreateOk(s, base, p)
    requires FileName(p) != [] && FileName(p) != DOT && FileName(p) != DOT_DOT && SLASH !in c
    ensures var s' := Create(s, base, p, isDir);
            && Wf(s') && RootBare(s') && base in s'.nodes && s.next in s'.nodes && Lookup(s', base, p) == Some(s.next)
            && s'.nodes[s.next].isDir == isDir
            && (CreateOk(s', base, p + [SLASH] + c) <==> isDir)
            && (Proper(c) ==> Lookup(s', base, p + [SLASH] + c) == None)
  {
    hide Wf, RootBare, CanAdd, Added, Lookup, HasEntry, Take, HasRoom, FirstEntry, ParentPath, LastSlash;
    CreatedResolvesIff(s, base, p, isDir);
    AddedNew(s, ParentDir(s, base, p).value, FileName(p), isDir);
    var s' := Create(s, base, p, isDir);
    NotEmpty(p);
    CreateOkIff(s', base, p, c);
    if Proper(c) { NameLeads(s', base, p, c); }
  }

  lemma NotEmpty(p: seq<byte>)
    requires FileName(p) != []
    ensures p != []
  {
  }

  // ---------------------------------------------------------------- what is mounted

  /** The first file of that name that a driver puts into its root. */
  ghost predicate FirstFile(d: Driver, i: nat, name: seq<byte>) {
    i < |d.files| && d.files[i] == name && forall j :: 0 <= j < i ==> d.files[j] != name
  }

  lemma MountedRootEntries(s: Fs, v: nat, d: Driver, name: seq<byte>, i: nat)
    requires Wf(s) && v in s.nodes && DriverOk(d)
    ensures var s' := Mounted(s, v, d);
            && s.next in s'.nodes && s'.nodes[s.next].isDir && s'.nodes[s.next].mount == None && s'.nodes[s.next].writable == d.writable
            && |s'.nodes[s.next].entries| == MAX_ENTRIES
            && (i < MAX_ENTRIES ==> s'.nodes[s.next].entries[i] == if i < |d.files| then Some(s.next + 1 + i) else None)
            && (IsEntry(s', s.next, i, name) <==> i < |d.files| && d.files[i] == name)
            && (i < |d.files| ==> s.next + 1 + i in s'.nodes && !s'.nodes[s.next + 1 + i].isDir && s'.nodes[s.next + 1 + i].mount == None)
  {
    hide Wf, Mounted;
    MountedAt(s, v, d, s.next);
    if i < |d.files| { MountedAt(s, v, d, s.next + 1 + i); }
  }

  lemma MountedRootBare(s: Fs, v: nat, d: Driver)
    requires Wf(s) && RootBare(s) && v in s.nodes && v != s.root && DriverOk(d)
    ensures Wf(Mounted(s, v, d)) && RootBare(Mounted(s, v, d))
  {
    hide Wf, Mounted, NewNode;
    MountedWf(s, v, d);
    MountedRest(s, v, d);
    SixteenEntries(s, v);
    MountedAt(s, v, d, s.root);
  }

  lemma MountedHas(s: Fs, v: nat, d: Driver, name: seq<byte>)
    requires Wf(s) && v in s.nodes && DriverOk(d)
    ensures HasEntry(Mounted(s, v, d), s.next, name) <==> name in d.files
    ensures HasRoom(Mounted(s, v, d), s.next) <==> |d.files| < MAX_ENTRIES
  {
    hide Wf, Mounted, IsEntry;
    var s' := Mounted(s, v, d);
    forall i: nat ensures IsEntry(s', s.next, i, name) <==> i < |d.files| && d.files[i] == name {
      MountedRootEntries(s, v, d, name, i);
    }
    forall i: nat | i < MAX_ENTRIES ensures s.next in s'.nodes && |s'.nodes[s.next].entries| == MAX_ENTRIES
      ensures s'.nodes[s.next].entries[i] == if i < |d.files| then Some(s.next + 1 + i) else None
    {
      MountedRootEntries(s, v, d, name, i);
    }
    MountedRootEntries(s, v, d, name, 0);
    if |d.files| < MAX_ENTRIES { assert s'.nodes[s.next].entries[|d.files|] == None; }
  }

  /** From the root of a filesystem just mounted, a name leads to the first file of that name that the
      filesystem came with, which is no directory; nothing else is found.  The root is a directory, in
      which a file can be created exactly when the filesystem can be written, does not have sixteen
      files, and has none of that name. */
  lemma MountedFiles(s: Fs, v: nat, d: Driver, c: seq<byte>)
    requires Wf(s) && RootBare(s) && v in s.nodes && v != s.root && DriverOk(d) && Proper(c)
    ensures var s', r, name := Mounted(s, v, d), s.next, Take(c, MAX_NAME - 1);
            && Wf(s') && RootBare(s') && r in s'.nodes && s'.nodes[r].isDir
            && (Lookup(s', r, c).None? <==> name !in d.files)
            && (Lookup(s', r, c).Some? ==> exists i: nat ::
                  FirstFile(d, i, name) && Lookup(s', r, c) == Some(r + 1 + i) && !s'.nodes[r + 1 + i].isDir)
            && (CanAdd(s', r, name) <==> d.writable && |d.files| < MAX_ENTRIES && name !in d.files)
  {
    hide Wf, RootBare, Mounted, Lookup, Child, Take, IsEntry, FirstEntry, HasEntry, CanAdd;
    var s', r, name := Mounted(s, v, d), s.next, Take(c, MAX_NAME - 1);
    MountedRootBare(s, v, d);
    MountedRootEntries(s, v, d, name, 0);
    MountedHas(s, v, d, name);
    ShortName(c);
    LookupName(s', r, c);
    CanAddIff(s', r, name);
    var i := ChildOfRoot(s, v, d, name);
    if name in d.files { FileIsPlain(s, v, d, i); }
  }

  lemma ChildOfRoot(s: Fs, v: nat, d: Driver, name: seq<byte>) returns (i: nat)
    requires Wf(s) && v in s.nodes && DriverOk(d)
    ensures Wf(Mounted(s, v, d)) && s.next in Mounted(s, v, d).nodes
    ensures Child(Mounted(s, v, d), s.next, name) == if name in d.files then Some(s.next + 1 + i) else None
    ensures name in d.files ==> FirstFile(d, i, name)
  {
    hide Wf, Mounted, Child, IsEntry;
    var s', r := Mounted(s, v, d), s.next;
    MountedWf(s, v, d);
    MountedHas(s, v, d, name);
    MountedRootEntries(s, v, d, name, 0);
    ChildIs(s', r, name);
    i := 0;
    if Child(s', r, name).Some? {
      i :| FirstEntry(s', r, i, name) && i < |s'.nodes[r].entries| && s'.nodes[r].entries[i] == Child(s', r, name);
      MountedRootEntries(s, v, d, name, i);
      forall j | 0 <= j < i ensures d.files[j] != name { MountedRootEntries(s, v, d, name, j); }
    }
  }

  lemma FileIsPlain(s: Fs, v: nat, d: Driver, i: nat)
    requires Wf(s) && v in s.nodes && DriverOk(d) && i < |d.files|
    ensures PlainFile(Mounted(s, v, d), s.next + 1 + i)
  {
    hide Wf, Mounted;
    MountedWf(s, v, d);
    MountedRootEntries(s, v, d, [], i);
  }

  ghost predicate PlainFile(s: Fs, n: nat) {
    Wf(s) && n in s.nodes && !s.nodes[n].isDir && Cross(s, n) == n
  }

  /** A path that led to the vnode mounted on now leads to the new root, and what follows is looked up
      there. */
  lemma PathIntoMount(s: Fs, x: nat, c: seq<byte>, v: nat, d: Driver, q: seq<byte>)
    requires Wf(s) && RootBare(s) && x in s.nodes && Proper(c) && Lookup(s, x, c) == Some(v) && v != s.root && DriverOk(d)
    ensures var s' := Mounted(s, v, d);
            && Wf(s') && RootBare(s') && x in s'.nodes && s.next in s'.nodes && Lookup(s', x, c) == Some(s.next)
            && (q != [] && q[0] != SLASH ==> Lookup(s', x, c + [SLASH] + q) == Lookup(s', s.next, q))
  {
    hide Wf, RootBare, Mounted, Lookup, Child, Take, EntriesKeep;
    var s', name := Mounted(s, v, d), Take(c, MAX_NAME - 1);
    ShortName(c);
    LookupName(s, x, c);
    MountedRootBare(s, v, d);
    MountedAt(s, v, d, x);
    MountedAt(s, v, d, s.next);
    MountedKeeps(s, v, d);
    MountedEntriesKeep(s, v, d, x, name);
    ChildKept(s, s', x, name);
    CrossAfterMount(s, v, d, Child(s, x, name).value);
    LookupName(s', x, c);
    if q != [] && q[0] != SLASH { LookupAppend(s', x, c, q); }
  }

  lemma MountedEntriesKeep(s: Fs, v: nat, d: Driver, x: nat, name: seq<byte>)
    requires Wf(s) && v in s.nodes && x in s.nodes
    ensures x in Mounted(s, v, d).nodes && EntriesKeep(s, Mounted(s, v, d), x, name)
  {
    hide Wf, Mounted;
    MountedAt(s, v, d, x);
    EntriesInside(s, x);
  }
}
