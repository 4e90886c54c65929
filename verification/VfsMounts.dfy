/** vfs_mount (lab7/src/vfs.c:257-303): what mounting changes, and what its eight-entry table
    costs the ninth mount. */
module VfsMounts {
  import opened Bytes
  import opened VfsModel
  import opened VfsChanges

  /** A registered filesystem: the name it is mounted by, the files its setup_mount puts into the new root, and whether its
      create and mkdir work. */
  datatype Driver = Driver(name: seq<byte>, files: seq<seq<byte>>, writable: bool)

  predicate DriverOk(d: Driver) { |d.files| <= MAX_ENTRIES }

  function RootEntries(r: nat, n: nat): (e: seq<Option<nat>>)
    ensures |e| == MAX_ENTRIES && forall i :: 0 <= i < MAX_ENTRIES ==> e[i] == if i < n then Some(r + 1 + i) else None
  {
    seq(MAX_ENTRIES, i => if 0 <= i < n then Some(r + 1 + i) else None)
  }

  /** The vnodes that setup_mount allocates: the root r, then its files. */
  function NewNode(r: nat, d: Driver, k: nat): Vnode {
    if r < k <= r + |d.files| then Vnode(None, r, false, d.files[k - r - 1], NoEntries(), d.writable)
    else Vnode(None, r, true, [], RootEntries(r, |d.files|), d.writable)
  }

  function MountNodes(s: Fs, v: nat, d: Driver): map<nat, Vnode>
    requires v in s.nodes
  {
    s.nodes[v := s.nodes[v].(mount := Some(s.next))] + map h: nat | s.next <= h <= s.next + |d.files| :: NewNode(s.next, d, h)
  }

  /** A filesystem mounted on v: always linked to v, entered into the table while there is room. */
  function Mounted(s: Fs, v: nat, d: Driver): Fs
    requires v in s.nodes
  {
    Fs(MountNodes(s, v, d), if |s.mounts| < MAX_MOUNTS then s.mounts + [Mount(s.next, v)] else s.mounts, s.root, s.next + 1 + |d.files|)
  }

  lemma MountedAt(s: Fs, v: nat, d: Driver, k: nat)
    requires Wf(s) && v in s.nodes
    ensures k in Mounted(s, v, d).nodes <==> k in s.nodes || s.next <= k <= s.next + |d.files|
    ensures k in s.nodes ==> Mounted(s, v, d).nodes[k] == if k == v then s.nodes[k].(mount := Some(s.next)) else s.nodes[k]
    ensures s.next <= k <= s.next + |d.files| ==> Mounted(s, v, d).nodes[k] == NewNode(s.next, d, k) && k !in s.nodes
  {
    hide NodeOk, MountOk, NewNode;
    if k in s.nodes { Below(s, k); }
  }

  lemma Below(s: Fs, k: nat)
    requires Wf(s) && k in s.nodes
    ensures k < s.next
  {
    assert NodeOk(s, k);
  }

  lemma MountedKeeps(s: Fs, v: nat, d: Driver)
    requires Wf(s) && v in s.nodes
    ensures Keeps(s, Mounted(s, v, d))
  {
    hide Wf, Mounted;
    forall k | k in s.nodes
      ensures k in Mounted(s, v, d).nodes && Mounted(s, v, d).nodes[k].parent == s.nodes[k].parent
              && Mounted(s, v, d).nodes[k].name == s.nodes[k].name && Mounted(s, v, d).nodes[k].isDir == s.nodes[k].isDir
    {
      MountedAt(s, v, d, k);
    }
    MountedRest(s, v, d);
  }

  lemma MountedRest(s: Fs, v: nat, d: Driver)
    requires v in s.nodes
    ensures var s' := Mounted(s, v, d);
            s'.root == s.root && s'.next == s.next + 1 + |d.files|
            && s'.mounts == if |s.mounts| < MAX_MOUNTS then s.mounts + [Mount(s.next, v)] else s.mounts
  {
    hide MountNodes;
  }

  lemma OldNodeOk(s: Fs, v: nat, d: Driver, k: nat)
    requires Wf(s) && v in s.nodes && DriverOk(d) && k in s.nodes
    ensures k in Mounted(s, v, d).nodes && NodeOk(Mounted(s, v, d), k)
  {
    hide Wf, Mounted, NewNode;
    var s' := Mounted(s, v, d);
    NodeIn(s, k);
    Below(s, k);
    MountedKeeps(s, v, d);
    MountedAt(s, v, d, k);
    MountedAt(s, v, d, s.next);
    NewParent(s.next, d, s.next);
    if k != v {
      NodeStays(s, s', k);
    } else {
      forall i | 0 <= i < MAX_ENTRIES ensures EntryOk(s', k, i) {
        assert EntryOk(s, k, i);
      }
    }
  }

  lemma NewParent(r: nat, d: Driver, k: nat)
    ensures NewNode(r, d, k).parent == r && NewNode(r, d, k).mount == None && |NewNode(r, d, k).entries| == MAX_ENTRIES
  {
  }

  lemma NewNodeOk(s: Fs, v: nat, d: Driver, k: nat)
    requires Wf(s) && v in s.nodes && DriverOk(d) && s.next <= k <= s.next + |d.files|
    ensures k in Mounted(s, v, d).nodes && NodeOk(Mounted(s, v, d), k)
  {
    hide Wf, Mounted;
    var s' := Mounted(s, v, d);
    MountedRest(s, v, d);
    MountedAt(s, v, d, k);
    MountedAt(s, v, d, s.next);
    NextIsNew(s);
    forall i | 0 <= i < MAX_ENTRIES ensures EntryOk(s', k, i) {
      MountedAt(s, v, d, s.next + 1 + i);
    }
  }

  lemma NewMountOk(s: Fs, v: nat, d: Driver)
    requires Wf(s) && v in s.nodes && |s.mounts| < MAX_MOUNTS
    ensures var s' := Mounted(s, v, d); |s'.mounts| == |s.mounts| + 1 && MountOk(s', |s.mounts|)
  {
    hide Mounted, NodeOk;
    MountedRest(s, v, d);
    MountedAt(s, v, d, s.next);
    MountedAt(s, v, d, v);
    NewParent(s.next, d, s.next);
    Below(s, v);
    NextIsNew(s);
  }

  lemma RootsInside(s: Fs, i: nat)
    requires Wf(s) && i < |s.mounts|
    ensures MountOk(s, i) && s.mounts[i].root < s.next
  {
    assert MountOk(s, i);
    assert NodeOk(s, s.mounts[i].root);
  }

  lemma MountedTable(s: Fs, v: nat, d: Driver)
    requires Wf(s) && v in s.nodes
    ensures var s' := Mounted(s, v, d);
            && 0 < |s'.mounts| <= MAX_MOUNTS
            && (forall i :: 0 <= i < |s'.mounts| ==> MountOk(s', i))
            && (forall i, j :: 0 <= i < j < |s'.mounts| ==> s'.mounts[i].root != s'.mounts[j].root)
  {
    hide Mounted, NodeOk, MountOk, Keeps;
    var s' := Mounted(s, v, d);
    MountedRest(s, v, d);
    MountedKeeps(s, v, d);
    forall i | 0 <= i < |s'.mounts| ensures MountOk(s', i) {
      if i < |s.mounts| { MountStays(s, s', i); } else { NewMountOk(s, v, d); }
    }
    forall i | 0 <= i < |s.mounts| ensures s.mounts[i].root != s.next {
      RootsInside(s, i);
    }
  }

  /** Mounting keeps the tree well formed. */
  lemma MountedWf(s: Fs, v: nat, d: Driver)
    requires Wf(s) && v in s.nodes && DriverOk(d)
    ensures Wf(Mounted(s, v, d))
  {
    hide Mounted, NodeOk, MountOk;
    var s' := Mounted(s, v, d);
    MountedTable(s, v, d);
    MountedKeeps(s, v, d);
    forall k | k in s'.nodes ensures NodeOk(s', k) {
      MountedAt(s, v, d, k);
      if k in s.nodes { OldNodeOk(s, v, d, k); } else { NewNodeOk(s, v, d, k); }
    }
  }

  /** Afterwards every mount is in the table exactly when there was room, and nothing is mounted on
      the very root exactly when the target was another vnode. */
  lemma MountedIff(s: Fs, v: nat, d: Driver)
    requires Wf(s) && RootBare(s) && AllRecorded(s) && v in s.nodes && DriverOk(d)
    ensures Wf(Mounted(s, v, d))
    ensures AllRecorded(Mounted(s, v, d)) <==> |s.mounts| < MAX_MOUNTS
    ensures RootBare(Mounted(s, v, d)) <==> v != s.root
  {
    hide Wf, Mounted, NewNode;
    var s' := Mounted(s, v, d);
    MountedWf(s, v, d);
    MountedRest(s, v, d);
    MountedAt(s, v, d, s.root);
    MountedAt(s, v, d, v);
    NextIsNew(s);
    if |s.mounts| < MAX_MOUNTS {
      forall k | k in s'.nodes && s'.nodes[k].mount.Some? ensures Mount(s'.nodes[k].mount.value, k) in s'.mounts {
        MountedAt(s, v, d, k);
        if k !in s.nodes {
          NewParent(s.next, d, k);
        } else if k == v {
          assert s'.mounts[|s.mounts|] == Mount(s.next, v);
        }
      }
    } else {
      NoSuchMount(s, v);
    }
  }

  lemma NoSuchMount(s: Fs, v: nat)
    requires Wf(s)
    ensures Mount(s.next, v) !in s.mounts
  {
    hide NodeOk, MountOk;
    forall i | 0 <= i < |s.mounts| ensures s.mounts[i].root != s.next {
      RootsInside(s, i);
    }
  }

  /** Paths that ended at v now end at the root of the new filesystem, and others where they did. */
  lemma {:induction false} CrossAfterMount(s: Fs, v: nat, d: Driver, x: nat)
    requires Wf(s) && v in s.nodes && DriverOk(d) && s.nodes[v].mount == None && x in s.nodes
    ensures Wf(Mounted(s, v, d)) && x in Mounted(s, v, d).nodes
    ensures Cross(Mounted(s, v, d), x) == if Cross(s, x) == v then s.next else Cross(s, x)
    decreases s.next - x
  {
    hide Wf, Mounted, NewNode;
    MountedWf(s, v, d);
    MountedAt(s, v, d, x);
    MountedAt(s, v, d, s.next);
    NewParent(s.next, d, s.next);
    MountAbove(s, x);
    if s.nodes[x].mount.Some? {
      CrossAfterMount(s, v, d, s.nodes[x].mount.value);
    } else if x == v {
      assert Cross(Mounted(s, v, d), s.next) == s.next;
    }
  }

  /** From the root of a filesystem just mounted on a directory entry, ".." leads out to that
      directory exactly when the mount found room in the table; otherwise it stays where it is. */
  lemma UpFromNewMount(s: Fs, v: nat, n: nat, d: Driver)
    requires Wf(s) && RootBare(s) && AllRecorded(s) && DriverOk(d)
    requires n in s.nodes && v in s.nodes && s.nodes[n].parent == v && v < n && s.nodes[n].mount == None && s.nodes[v].mount == None
    ensures Wf(Mounted(s, n, d)) && RootBare(Mounted(s, n, d)) && s.next in Mounted(s, n, d).nodes
    ensures Step(Mounted(s, n, d), s.next, DOT_DOT) == Some(if |s.mounts| < MAX_MOUNTS then v else s.next)
  {
    hide Wf, RootBare, AllRecorded, Mounted, NewNode, MountOf;
    var s' := Mounted(s, n, d);
    EntryBelowRoot(s, v, n);
    MountedIff(s, n, d);
    MountedRest(s, n, d);
    MountedAt(s, n, d, s.next);
    MountedAt(s, n, d, n);
    MountedAt(s, n, d, v);
    NewParent(s.next, d, s.next);
    NextIsNew(s);
    EntryNotRoot(s', v, n);
    if |s.mounts| < MAX_MOUNTS {
      MountOfIndex(s', |s.mounts|);
      assert Pop(s', n) == n;
    } else {
      NotMountedThere(s, s.next);
    }
  }

  lemma EntryBelowRoot(s: Fs, v: nat, n: nat)
    requires Wf(s) && n in s.nodes && s.nodes[n].parent == v && v < n
    ensures n != s.root
  {
    assert MountOk(s, 0);
  }

  lemma NotMountedThere(s: Fs, r: nat)
    requires Wf(s) && r == s.next
    ensures MountOf(s.mounts, r) == |s.mounts|
  {
    hide NodeOk, MountOk;
    if MountOf(s.mounts, r) < |s.mounts| { RootsInside(s, MountOf(s.mounts, r)); }
  }

  /** A tree with a full table: directories 1 to 8 in the root, and filesystems with roots 9 to 15
      mounted on the first seven of them. */
  function FullTree(): Fs {
    Fs(map k: nat | k < 16 :: FullNode(k),
       [Mount(0, 0), Mount(9, 1), Mount(10, 2), Mount(11, 3), Mount(12, 4), Mount(13, 5), Mount(14, 6), Mount(15, 7)], 0, 16)
  }

  function FullNode(k: nat): Vnode {
    if k == 0 then Vnode(None, 0, true, [], seq(MAX_ENTRIES, i => if 0 <= i < 8 then Some(i + 1) else None), true)
    else if k <= 8 then Vnode(if k <= 7 then Some(k + 8) else None, 0, true, [96 + k], NoEntries(), true)
    else Vnode(None, k, true, [], NoEntries(), true)
  }

  lemma FullTreeOk()
    ensures Wf(FullTree()) && RootBare(FullTree()) && AllRecorded(FullTree())
  {
    var s := FullTree();
    forall v | v in s.nodes ensures NodeOk(s, v) {
      FullNodeOk(v);
    }
    forall i | 0 <= i < |s.mounts| ensures MountOk(s, i) {
    }
    forall v | v in s.nodes && s.nodes[v].mount.Some? ensures Mount(s.nodes[v].mount.value, v) in s.mounts {
      assert s.mounts[v] == Mount(v + 8, v);
    }
  }

  lemma FullNodeOk(v: nat)
    requires v < 16
    ensures v in FullTree().nodes && NodeOk(FullTree(), v)
  {
    var s := FullTree();
    forall i | 0 <= i < MAX_ENTRIES ensures EntryOk(s, v, i) {
    }
  }

  /** The ninth mount, on directory 8, is not in the table, and ".." does not lead out of it. */
  lemma NinthMountStuck(d: Driver)
    requires DriverOk(d)
    ensures Wf(FullTree()) && 8 in FullTree().nodes && Wf(Mounted(FullTree(), 8, d)) && !AllRecorded(Mounted(FullTree(), 8, d))
    ensures RootBare(Mounted(FullTree(), 8, d)) && 16 in Mounted(FullTree(), 8, d).nodes
    ensures Step(Mounted(FullTree(), 8, d), 16, DOT_DOT) == Some(16)
  {
    hide Wf, RootBare, AllRecorded, Mounted, Step;
    FullTreeOk();
    var s := FullTree();
    assert s.nodes[8] == FullNode(8) && s.nodes[0] == FullNode(0);
    MountedIff(s, 8, d);
    UpFromNewMount(s, 0, 8, d);
  }
}
