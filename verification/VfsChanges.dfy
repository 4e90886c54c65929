/** Creating files and directories and mounting filesystems (lab7/src/vfs.c:130-303,
    lab7/src/tmpfs.c:10-147) on the tree of vnodes, and what they leave alone. */
module VfsChanges {
  import opened Bytes
  import opened VfsModel

  // ---------------------------------------------------------------- adding an entry

  function NoEntries(): (e: seq<Option<nat>>)
    ensures |e| == MAX_ENTRIES && forall i :: 0 <= i < MAX_ENTRIES ==> e[i] == None
  {
    seq(MAX_ENTRIES, _ => None)
  }

  /** The first empty slot; the number of slots if there is none. */
  function FreeSlot(entries: seq<Option<nat>>): (i: nat)
    ensures i <= |entries| && (i < |entries| ==> entries[i] == None)
    ensures forall j :: 0 <= j < i ==> entries[j] != None
  {
    if entries == [] || entries[0] == None then 0 else 1 + FreeSlot(entries[1..])
  }

  /** Whether the driver's create or mkdir succeeds. */
  predicate CanAdd(s: Fs, dir: nat, name: seq<byte>)
    requires Wf(s) && dir in s.nodes
  {
    s.nodes[dir].writable && s.nodes[dir].isDir && Child(s, dir, name) == None && FreeSlot(s.nodes[dir].entries) < |s.nodes[dir].entries|
  }

  /** A new vnode in the first empty slot of a directory. */
  function Added(s: Fs, dir: nat, name: seq<byte>, isDir: bool): Fs
    requires dir in s.nodes
  {
    var d := s.nodes[dir];
    var slot := FreeSlot(d.entries);
    s.(nodes := s.nodes[dir := d.(entries := if slot < |d.entries| then d.entries[slot := Some(s.next)] else d.entries)]
                       [s.next := Vnode(None, dir, isDir, name, NoEntries(), true)],
       next := s.next + 1)
  }

  /** Everything there stays as it is, but for entries and mounts. */
  ghost predicate Keeps(s: Fs, s': Fs) {
    && s'.root == s.root && s'.next >= s.next
    && forall v :: v in s.nodes ==> v in s'.nodes && s'.nodes[v].parent == s.nodes[v].parent
                                    && s'.nodes[v].name == s.nodes[v].name && s'.nodes[v].isDir == s.nodes[v].isDir
  }

  /** Moreover every mount stays as it is and none is added. */
  ghost predicate KeepsMounts(s: Fs, s': Fs) {
    Keeps(s, s') && s'.mounts == s.mounts && forall v :: v in s.nodes ==> s'.nodes[v].mount == s.nodes[v].mount
  }

  lemma NextIsNew(s: Fs)
    requires Wf(s)
    ensures s.next !in s.nodes && s.root in s.nodes && s.root < s.next
  {
    assert s.next in s.nodes ==> NodeOk(s, s.next);
    assert NodeOk(s, s.root);
  }

  lemma NodeIn(s: Fs, v: nat)
    requires Wf(s) && v in s.nodes
    ensures NodeOk(s, v)
  {
  }

  lemma NodeStays(s: Fs, s': Fs, v: nat)
    requires Keeps(s, s') && v in s.nodes && NodeOk(s, v)
    requires s'.nodes[v].entries == s.nodes[v].entries && s'.nodes[v].mount == s.nodes[v].mount
    ensures NodeOk(s', v)
  {
    forall i | 0 <= i < MAX_ENTRIES ensures EntryOk(s', v, i) {
      assert EntryOk(s, v, i);
    }
  }

  lemma MountStays(s: Fs, s': Fs, i: nat)
    requires Keeps(s, s') && i < |s.mounts| && MountOk(s, i) && i < |s'.mounts| && s'.mounts[i] == s.mounts[i]
    ensures MountOk(s', i)
  {
  }

  lemma AddedKeeps(s: Fs, dir: nat, name: seq<byte>, isDir: bool)
    requires Wf(s) && dir in s.nodes && CanAdd(s, dir, name)
    ensures KeepsMounts(s, Added(s, dir, name, isDir))
    ensures forall v :: v in s.nodes && v != dir ==> Added(s, dir, name, isDir).nodes[v] == s.nodes[v]
  {
    hide Wf, Child, FreeSlot;
    NextIsNew(s);
  }

  lemma AddedDirOk(s: Fs, dir: nat, name: seq<byte>, isDir: bool)
    requires Wf(s) && dir in s.nodes && CanAdd(s, dir, name)
    ensures NodeOk(Added(s, dir, name, isDir), dir)
  {
    hide Wf, Child, FreeSlot;
    NextIsNew(s);
    NodeIn(s, dir);
    var s' := Added(s, dir, name, isDir);
    forall i | 0 <= i < MAX_ENTRIES ensures EntryOk(s', dir, i) {
      assert EntryOk(s, dir, i);
    }
  }

  lemma AddedNewOk(s: Fs, dir: nat, name: seq<byte>, isDir: bool)
    requires Wf(s) && dir in s.nodes && CanAdd(s, dir, name)
    ensures s.next in Added(s, dir, name, isDir).nodes && NodeOk(Added(s, dir, name, isDir), s.next)
    ensures Added(s, dir, name, isDir).nodes[s.next].mount == None
  {
    hide Wf, Child, FreeSlot;
    NextIsNew(s);
    NodeIn(s, dir);
    var s' := Added(s, dir, name, isDir);
    forall i | 0 <= i < MAX_ENTRIES ensures EntryOk(s', s.next, i) {
      assert s'.nodes[s.next].entries[i] == None;
    }
  }

  lemma AddedWf(s: Fs, dir: nat, name: seq<byte>, isDir: bool)
    requires Wf(s) && dir in s.nodes && CanAdd(s, dir, name)
    ensures Wf(Added(s, dir, name, isDir)) && s.next !in s.nodes
  {
    hide CanAdd, Added, NodeOk, MountOk;
    NextIsNew(s);
    var s' := Added(s, dir, name, isDir);
    AddedKeeps(s, dir, name, isDir);
    AddedDirOk(s, dir, name, isDir);
    AddedNewOk(s, dir, name, isDir);
    AddedKeys(s, dir, name, isDir);
    forall v | v in s'.nodes ensures NodeOk(s', v) {
      if v != dir && v != s.next { NodeStays(s, s', v); }
    }
    forall i | 0 <= i < |s'.mounts| ensures MountOk(s', i) {
      MountStays(s, s', i);
    }
  }

  lemma AddedKeys(s: Fs, dir: nat, name: seq<byte>, isDir: bool)
    requires Wf(s) && dir in s.nodes && CanAdd(s, dir, name)
    ensures Added(s, dir, name, isDir).nodes.Keys == s.nodes.Keys + {s.next}
  {
    hide Wf, Child, FreeSlot;
  }

  lemma AddedRootBare(s: Fs, dir: nat, name: seq<byte>, isDir: bool)
    requires Wf(s) && dir in s.nodes && CanAdd(s, dir, name)
    ensures Wf(Added(s, dir, name, isDir))
    ensures RootBare(s) ==> RootBare(Added(s, dir, name, isDir))
    ensures AllRecorded(s) ==> AllRecorded(Added(s, dir, name, isDir))
  {
    hide Wf, CanAdd, Added;
    NextIsNew(s);
    AddedWf(s, dir, name, isDir);
    AddedKeeps(s, dir, name, isDir);
    AddedKeys(s, dir, name, isDir);
    AddedNewOk(s, dir, name, isDir);
  }

  // ---------------------------------------------------------------- what adding leaves alone

  /** The slot of a name in an entry array, by its two defining facts. */
  lemma SlotIs(s: Fs, entries: seq<Option<nat>>, name: seq<byte>, i: nat)
    requires i < |entries| && entries[i].Some? && entries[i].value in s.nodes && s.nodes[entries[i].value].name == name
    requires forall j :: 0 <= j < i ==> !(entries[j].Some? && entries[j].value in s.nodes && s.nodes[entries[j].value].name == name)
    ensures SlotOf(s, entries, name) == i
  {
  }

  lemma EntriesInside(s: Fs, v: nat)
    requires Wf(s) && v in s.nodes
    ensures forall j :: 0 <= j < |s.nodes[v].entries| && s.nodes[v].entries[j].Some? ==> s.nodes[v].entries[j].value in s.nodes
  {
    hide Wf;
    forall j | 0 <= j < |s.nodes[v].entries| && s.nodes[v].entries[j].Some? ensures s.nodes[v].entries[j].value in s.nodes {
      EntryFacts(s, v, j);
    }
  }

  /** Each entry stays, or an empty slot takes a vnode that does not have the name c. */
  ghost predicate EntriesKeep(s: Fs, s': Fs, v: nat, c: seq<byte>)
    requires v in s.nodes && v in s'.nodes
  {
    && |s'.nodes[v].entries| == |s.nodes[v].entries|
    && forall j :: 0 <= j < |s.nodes[v].entries| ==>
         var e, e' := s.nodes[v].entries[j], s'.nodes[v].entries[j];
         if e.Some? then e' == e && e.value in s.nodes else e'.Some? ==> e'.value in s'.nodes && s'.nodes[e'.value].name != c
  }

  lemma ChildKept(s: Fs, s': Fs, v: nat, c: seq<byte>)
    requires Wf(s) && Wf(s') && Keeps(s, s') && v in s.nodes && EntriesKeep(s, s', v, c) && Child(s, v, c).Some?
    ensures Child(s', v, c) == Child(s, v, c)
  {
    hide Wf;
    var old_, new_ := s.nodes[v].entries, s'.nodes[v].entries;
    SlotIs(s', new_, c, SlotOf(s, old_, c));
  }

  /** A name that was found is found again: the new entry has another name. */
  lemma AddedEntriesKeep(s: Fs, dir: nat, name: seq<byte>, isDir: bool, v: nat, c: seq<byte>)
    requires Wf(s) && dir in s.nodes && CanAdd(s, dir, name) && v in s.nodes && Child(s, v, c).Some?
    ensures v in Added(s, dir, name, isDir).nodes && EntriesKeep(s, Added(s, dir, name, isDir), v, c)
  {
    hide Wf, Child, FreeSlot;
    NextIsNew(s);
    EntriesInside(s, v);
  }

  lemma MountAbove(s: Fs, v: nat)
    requires Wf(s) && v in s.nodes
    ensures v < s.next && (s.nodes[v].mount.Some? ==> s.nodes[v].mount.value in s.nodes && v < s.nodes[v].mount.value < s.next)
  {
    assert NodeOk(s, v);
    if s.nodes[v].mount.Some? { assert NodeOk(s, s.nodes[v].mount.value); }
  }

  lemma {:induction false} CrossKept(s: Fs, s': Fs, v: nat)
    requires Wf(s) && Wf(s') && KeepsMounts(s, s') && v in s.nodes
    ensures v in s'.nodes && Cross(s', v) == Cross(s, v)
    decreases s.next - v
  {
    hide Wf;
    MountAbove(s, v);
    if s.nodes[v].mount.Some? {
      CrossKept(s, s', s.nodes[v].mount.value);
    }
  }

  lemma MountBelow(s: Fs, v: nat)
    requires Wf(s) && RootBare(s) && v in s.nodes && v != s.root && MountOf(s.mounts, v) < |s.mounts|
    ensures var m := s.mounts[MountOf(s.mounts, v)].mountpoint; m in s.nodes && m < v && m != s.root
  {
    assert MountOk(s, MountOf(s.mounts, v)) && MountOk(s, 0);
  }

  lemma {:induction false} PopKept(s: Fs, s': Fs, v: nat)
    requires Wf(s) && Wf(s') && RootBare(s) && RootBare(s') && KeepsMounts(s, s') && v in s.nodes && v != s.root
    ensures v in s'.nodes && Pop(s', v) == Pop(s, v)
    decreases v
  {
    hide Wf, RootBare, MountOf;
    if MountOf(s.mounts, v) < |s.mounts| {
      MountBelow(s, v);
      PopKept(s, s', s.mounts[MountOf(s.mounts, v)].mountpoint);
    }
  }

  lemma UpKept(s: Fs, s': Fs, v: nat)
    requires Wf(s) && Wf(s') && RootBare(s) && RootBare(s') && KeepsMounts(s, s') && v in s.nodes
    ensures v in s'.nodes && Up(s', v) == Up(s, v)
  {
    hide Wf, RootBare, Pop, Cross;
    if v != s.root {
      PopKept(s, s', v);
      SixteenEntries(s, Pop(s, v));
      CrossKept(s, s', s.nodes[Pop(s, v)].parent);
    }
  }

  lemma StepKept(s: Fs, dir: nat, name: seq<byte>, isDir: bool, v: nat, c: seq<byte>)
    requires Wf(s) && RootBare(s) && dir in s.nodes && CanAdd(s, dir, name) && v in s.nodes && Step(s, v, c).Some?
    ensures Wf(Added(s, dir, name, isDir)) && RootBare(Added(s, dir, name, isDir)) && v in Added(s, dir, name, isDir).nodes
    ensures Step(Added(s, dir, name, isDir), v, c) == Step(s, v, c)
  {
    hide Wf, RootBare, CanAdd, Added, Up, Child, Cross, EntriesKeep;
    AddedRootBare(s, dir, name, isDir);
    var s' := Added(s, dir, name, isDir);
    AddedKeeps(s, dir, name, isDir);
    if c == DOT_DOT {
      UpKept(s, s', v);
    } else if c != DOT {
      AddedEntriesKeep(s, dir, name, isDir, v, c);
      ChildKept(s, s', v, c);
      CrossKept(s, s', Child(s, v, c).value);
    }
  }

  lemma {:induction false} WalkKept(s: Fs, dir: nat, name: seq<byte>, isDir: bool, v: nat, cs: seq<seq<byte>>)
    requires Wf(s) && RootBare(s) && dir in s.nodes && CanAdd(s, dir, name) && v in s.nodes && Walk(s, v, cs).Some?
    ensures Wf(Added(s, dir, name, isDir)) && RootBare(Added(s, dir, name, isDir)) && v in Added(s, dir, name, isDir).nodes
    ensures Walk(Added(s, dir, name, isDir), v, cs) == Walk(s, v, cs)
    decreases |cs|
  {
    hide Wf, RootBare, CanAdd, Step, Added, Keeps;
    AddedRootBare(s, dir, name, isDir);
    AddedKeeps(s, dir, name, isDir);
    AddedKeys(s, dir, name, isDir);
    if cs != [] {
      StepKept(s, dir, name, isDir, v, cs[0]);
      WalkKept(s, dir, name, isDir, Step(s, v, cs[0]).value, cs[1..]);
    }
  }

  /** Creating a file or directory anywhere never changes a lookup that already succeeded. */
  lemma LookupsKept(s: Fs, dir: nat, name: seq<byte>, isDir: bool, base: nat, p: seq<byte>)
    requires Wf(s) && RootBare(s) && dir in s.nodes && CanAdd(s, dir, name) && base in s.nodes && Lookup(s, base, p).Some?
    ensures Wf(Added(s, dir, name, isDir)) && RootBare(Added(s, dir, name, isDir)) && base in Added(s, dir, name, isDir).nodes
    ensures Lookup(Added(s, dir, name, isDir), base, p) == Lookup(s, base, p)
  {
    hide Wf, RootBare, CanAdd, Walk, Added, Components;
    NextIsNew(s);
    AddedKeys(s, dir, name, isDir);
    AddedKeeps(s, dir, name, isDir);
    WalkKept(s, dir, name, isDir, Start(s, base, p), Components(p));
  }

  // ---------------------------------------------------------------- creating by path

  /** The position of the last slash, -1 if there is none. */
  function LastSlash(p: seq<byte>): (i: int)
    ensures -1 <= i < |p| && (i >= 0 ==> p[i] == SLASH) && forall j :: i < j < |p| ==> p[j] != SLASH
  {
    if p == [] then -1 else if p[|p| - 1] == SLASH then |p| - 1 else LastSlash(p[..|p| - 1])
  }

  /** The path of the parent directory; empty when the path has no slash. */
  function ParentPath(p: seq<byte>): seq<byte> {
    if LastSlash(p) > 0 then p[..LastSlash(p)] else if LastSlash(p) == 0 then [SLASH] else []
  }

  function FileName(p: seq<byte>): seq<byte> { Take(p[LastSlash(p) + 1..], MAX_NAME - 1) }

  function ParentDir(s: Fs, base: nat, p: seq<byte>): (r: Option<nat>)
    requires Wf(s) && RootBare(s) && base in s.nodes
    ensures r.Some? ==> r.value in s.nodes
  {
    if LastSlash(p) == -1 then Some(base) else Lookup(s, base, ParentPath(p))
  }

  /** vfs_mkdir, and the part of vfs_open that creates a file. */
  predicate CreateOk(s: Fs, base: nat, p: seq<byte>)
    requires Wf(s) && RootBare(s) && base in s.nodes
  {
    ParentDir(s, base, p).Some? && CanAdd(s, ParentDir(s, base, p).value, FileName(p))
  }

  function Create(s: Fs, base: nat, p: seq<byte>, isDir: bool): Fs
    requires Wf(s) && RootBare(s) && base in s.nodes && CreateOk(s, base, p)
  {
    Added(s, ParentDir(s, base, p).value, FileName(p), isDir)
  }

  /** The parent's path, the slash, and the last name. */
  lemma PathParts(p: seq<byte>, i: int)
    requires p != [] && p[|p| - 1] != SLASH
    requires -1 <= i < |p| && (i >= 0 ==> p[i] == SLASH) && forall j :: i < j < |p| ==> p[j] != SLASH
    ensures p[i + 1..] != [] && SLASH !in p[i + 1..]
    ensures i > 0 ==> p == p[..i] + [SLASH] + p[i + 1..]
    ensures i == 0 ==> p == [SLASH] + p[i + 1..]
    ensures i < 0 ==> p == p[i + 1..]
  {
    if i >= 0 { SplitAt(p, i); }
  }

  lemma SplitAt(p: seq<byte>, i: nat)
    requires i < |p|
    ensures p == p[..i] + [p[i]] + p[i + 1..]
    ensures i == 0 ==> p == [p[0]] + p[1..]
  {
  }

  /** A single name resolves in the starting directory. */
  lemma LookupName(s: Fs, v: nat, f: seq<byte>)
    requires Wf(s) && RootBare(s) && v in s.nodes && f != [] && SLASH !in f
    ensures f[0] != SLASH && Lookup(s, v, f) == Step(s, v, Take(f, MAX_NAME - 1))
  {
    hide Wf, RootBare, Step, Walk, Take, Components;
    LongComponent(f);
    WalkOne(s, v, Take(f, MAX_NAME - 1));
    assert f[0] in f;
  }

  /** A name directly below the root. */
  lemma LookupTop(s: Fs, base: nat, f: seq<byte>)
    requires Wf(s) && RootBare(s) && base in s.nodes && f != [] && SLASH !in f
    ensures s.root in s.nodes && Lookup(s, base, [SLASH] + f) == Step(s, s.root, Take(f, MAX_NAME - 1))
    ensures Lookup(s, base, [SLASH]) == Some(s.root)
  {
    hide Wf, RootBare, Step, Walk, Take;
    SixteenEntries(s, base);
    LongComponent(f);
    assert ([SLASH] + f)[1..] == f && [SLASH][1..] == [];
    WalkNone(s, s.root);
    WalkOne(s, s.root, Take(f, MAX_NAME - 1));
  }

  /** A path is its parent's path and its last name. */
  lemma LookupByParent(s: Fs, base: nat, p: seq<byte>)
    requires Wf(s) && RootBare(s) && base in s.nodes && p != [] && p[|p| - 1] != SLASH
    ensures Lookup(s, base, p) == if ParentDir(s, base, p).Some? then Step(s, ParentDir(s, base, p).value, FileName(p)) else None
  {
    hide Wf, RootBare, Step, Walk, Take, Lookup, LastSlash;
    var i := LastSlash(p);
    var f := p[i + 1..];
    PathParts(p, i);
    if i > 0 {
      LookupAppend(s, base, p[..i], f);
      if ParentDir(s, base, p).Some? { LookupName(s, ParentDir(s, base, p).value, f); }
    } else if i == 0 {
      LookupTop(s, base, f);
    } else {
      LookupName(s, base, f);
    }
  }

  lemma WalkNone(s: Fs, v: nat)
    requires Wf(s) && RootBare(s) && v in s.nodes
    ensures Walk(s, v, []) == Some(v) && Components([]) == []
  {
  }

  lemma LongComponent(c: seq<byte>)
    requires c != [] && SLASH !in c
    ensures Components(c) == [Take(c, MAX_NAME - 1)]
  {
    NoSlash(c);
    assert c[..|c|] == c && Components(c[|c|..]) == [];
  }

  /** What the new name resolves to in its directory. */
  lemma AddedChild(s: Fs, dir: nat, name: seq<byte>, isDir: bool)
    requires Wf(s) && dir in s.nodes && CanAdd(s, dir, name)
    ensures Wf(Added(s, dir, name, isDir)) && dir in Added(s, dir, name, isDir).nodes
    ensures Child(Added(s, dir, name, isDir), dir, name) == Some(s.next)
  {
    hide Wf, FreeSlot;
    AddedWf(s, dir, name, isDir);
    EntriesInside(s, dir);
    NotYetThere(s, dir, name);
    var s' := Added(s, dir, name, isDir);
    var i := FreeSlot(s.nodes[dir].entries);
    SlotIs(s', s'.nodes[dir].entries, name, i);
  }

  lemma NotYetThere(s: Fs, dir: nat, name: seq<byte>)
    requires Wf(s) && dir in s.nodes && CanAdd(s, dir, name)
    ensures forall j :: 0 <= j < |s.nodes[dir].entries| && s.nodes[dir].entries[j].Some? && s.nodes[dir].entries[j].value in s.nodes ==>
              s.nodes[s.nodes[dir].entries[j].value].name != name
  {
    hide Wf, FreeSlot;
  }

  /** After a successful create or mkdir the path resolves to the new vnode exactly when its last
      name is not empty, "." or "..". */
  lemma CreatedResolvesIff(s: Fs, base: nat, p: seq<byte>, isDir: bool)
    requires Wf(s) && RootBare(s) && base in s.nodes && CreateOk(s, base, p)
    ensures var s' := Create(s, base, p, isDir);
            Wf(s') && RootBare(s') && base in s'.nodes
            && (Lookup(s', base, p) == Some(s.next) <==> FileName(p) != [] && FileName(p) != DOT && FileName(p) != DOT_DOT)
  {
    hide Wf, RootBare, CanAdd, AllRecorded, Walk, Added, Lookup, FileName, ParentPath, Step;
    var d := ParentDir(s, base, p).value;
    var name := FileName(p);
    var s' := Create(s, base, p, isDir);
    AddedRootBare(s, d, name, isDir);
    AddedKeys(s, d, name, isDir);
    if LastSlash(p) >= 0 { LookupsKept(s, d, name, isDir, base, ParentPath(p)); }
    assert ParentDir(s', base, p) == Some(d);
    if name == [] {
      EmptyName(s, s', base, p, d, isDir);
    } else {
      NamedPath(p);
      LookupByParent(s', base, p);
      AddedStep(s, d, name, isDir);
    }
  }

  lemma NamedPath(p: seq<byte>)
    ensures FileName(p) != [] ==> p != [] && p[|p| - 1] != SLASH
  {
  }

  /** One component from the directory that got the new entry. */
  lemma AddedStep(s: Fs, dir: nat, name: seq<byte>, isDir: bool)
    requires Wf(s) && RootBare(s) && dir in s.nodes && CanAdd(s, dir, name)
    requires Wf(Added(s, dir, name, isDir)) && RootBare(Added(s, dir, name, isDir)) && dir in Added(s, dir, name, isDir).nodes
    ensures Step(Added(s, dir, name, isDir), dir, name) == Some(s.next) <==> name != DOT && name != DOT_DOT
  {
    hide Wf, RootBare, CanAdd, Added, Child;
    NextIsNew(s);
    if name == DOT_DOT {
      StepKept(s, dir, name, isDir, dir, DOT_DOT);
    } else if name != DOT {
      AddedChild(s, dir, name, isDir);
      NewIsUncovered(s, dir, name, isDir);
    }
  }

  lemma NewIsUncovered(s: Fs, dir: nat, name: seq<byte>, isDir: bool)
    requires Wf(s) && dir in s.nodes && CanAdd(s, dir, name) && Wf(Added(s, dir, name, isDir))
    ensures s.next in Added(s, dir, name, isDir).nodes && Cross(Added(s, dir, name, isDir), s.next) == s.next
  {
    hide Wf, Child, FreeSlot;
  }

  /** A path that is empty or ends in a slash does not name the new vnode. */
  lemma EmptyName(s: Fs, s': Fs, base: nat, p: seq<byte>, d: nat, isDir: bool)
    requires Wf(s) && RootBare(s) && base in s.nodes && FileName(p) == [] && CreateOk(s, base, p)
    requires d == ParentDir(s, base, p).value && s' == Added(s, d, [], isDir) && Wf(s') && RootBare(s') && base in s'.nodes
    ensures Lookup(s', base, p) != Some(s.next)
  {
    hide Wf, RootBare, CanAdd, Walk, Added, Components;
    NextIsNew(s);
    var i := LastSlash(p);
    NoNameLeft(p);
    if i == 0 {
      LookupsKept(s, d, [], isDir, base, p);
    } else if i > 0 {
      SlashesDoNotMatter(s, base, ParentPath(p), []);
      LookupsKept(s, d, [], isDir, base, p);
    }
  }

  lemma NoNameLeft(p: seq<byte>)
    requires FileName(p) == []
    ensures LastSlash(p) == |p| - 1
    ensures LastSlash(p) == 0 ==> p == ParentPath(p)
    ensures LastSlash(p) > 0 ==> p == ParentPath(p) + [SLASH] && ParentPath(p) != []
  {
    hide *;
    NameIsRest(p);
    if LastSlash(p) == 0 {
      ParentOfRoot(p);
    } else if LastSlash(p) > 0 {
      ParentOfSlash(p);
    }
  }

  lemma NameIsRest(p: seq<byte>)
    requires FileName(p) == []
    ensures LastSlash(p) == |p| - 1
  {
    hide LastSlash;
    assert |p[LastSlash(p) + 1..]| == 0;
  }

  lemma ParentOfRoot(p: seq<byte>)
    requires LastSlash(p) == |p| - 1 == 0
    ensures p == ParentPath(p)
  {
    hide LastSlash;
    assert p[0] == SLASH;
  }

  lemma ParentOfSlash(p: seq<byte>)
    requires LastSlash(p) == |p| - 1 > 0
    ensures p == ParentPath(p) + [SLASH] && ParentPath(p) != []
  {
    hide LastSlash;
    assert p[|p| - 1] == SLASH;
  }

  /** A root directory without entries. */
  function BareRoot(): Fs {
    Fs(map[0 := Vnode(None, 0, true, [], NoEntries(), true)], [Mount(0, 0)], 0, 1)
  }

  /** mkdir of "." in it succeeds, and the path does not lead to the new directory. */
  lemma DotCreated()
    ensures Wf(BareRoot()) && RootBare(BareRoot()) && CreateOk(BareRoot(), 0, DOT)
    ensures var s' := Create(BareRoot(), 0, DOT, true);
            Wf(s') && RootBare(s') && 0 in s'.nodes && BareRoot().next in s'.nodes && Lookup(s', 0, DOT) != Some(BareRoot().next)
  {
    var s := BareRoot();
    assert NodeOk(s, 0) && MountOk(s, 0);
    assert DOT[..0] == [] && LastSlash(DOT) == -1;
    assert FileName(DOT) == DOT;
    CreatedResolvesIff(s, 0, DOT, true);
  }
}
