/** The tree of vnodes and mounts (lab7/src/vfs.c, lab7/src/tmpfs.c) on values.  Vnodes are
    numbered in the order they are allocated, so a child is younger than its directory and the
    root of a mounted filesystem is younger than the vnode it covers. */
module VfsModel {
  import opened Bytes

  const MAX_NAME := 16
  const MAX_ENTRIES := 16
  const MAX_MOUNTS := 8
  const SLASH: byte := 47
  const DOT: seq<byte> := [46]
  const DOT_DOT: seq<byte> := [46, 46]

  datatype Option<T> = None | Some(value: T)

  /** mount is the root of the filesystem mounted here, if any. */
  datatype Vnode = Vnode(mount: Option<nat>, parent: nat, isDir: bool, name: seq<byte>, entries: seq<Option<nat>>, writable: bool)

  datatype Mount = Mount(root: nat, mountpoint: nat)

  /** next is the number of the next vnode to be allocated. */
  datatype Fs = Fs(nodes: map<nat, Vnode>, mounts: seq<Mount>, root: nat, next: nat)

  // ---------------------------------------------------------------- invariant

  predicate EntryOk(s: Fs, v: nat, i: nat)
    requires v in s.nodes && i < |s.nodes[v].entries|
  {
    var e := s.nodes[v].entries[i];
    e.Some? ==> v < e.value && e.value in s.nodes && s.nodes[e.value].parent == v && e.value != s.root
  }

  predicate NodeOk(s: Fs, v: nat)
    requires v in s.nodes
  {
    var n := s.nodes[v];
    && v < s.next && n.parent in s.nodes && n.parent <= v && |n.entries| == MAX_ENTRIES
    && (forall i :: 0 <= i < MAX_ENTRIES ==> EntryOk(s, v, i))
    && (n.mount.Some? ==> v < n.mount.value && n.mount.value in s.nodes && s.nodes[n.mount.value].parent == n.mount.value)
  }

  predicate MountOk(s: Fs, i: nat)
    requires i < |s.mounts|
  {
    var m := s.mounts[i];
    && m.root in s.nodes && s.nodes[m.root].parent == m.root && m.mountpoint in s.nodes
    && (if i == 0 then m == Mount(s.root, s.root) else m.mountpoint < m.root && m.root != s.root)
  }

  ghost predicate Wf(s: Fs) {
    && s.root in s.nodes && 0 < |s.mounts| <= MAX_MOUNTS
    && (forall v :: v in s.nodes ==> NodeOk(s, v))
    && (forall i :: 0 <= i < |s.mounts| ==> MountOk(s, i))
    && (forall i, j :: 0 <= i < j < |s.mounts| ==> s.mounts[i].root != s.mounts[j].root)
  }

  /** Nothing is mounted on the root of the root filesystem. */
  ghost predicate RootBare(s: Fs)
    requires Wf(s)
  {
    s.nodes[s.root].mount == None && forall i :: 0 < i < |s.mounts| ==> s.mounts[i].mountpoint != s.root
  }

  /** Every mount is in the table. */
  ghost predicate AllRecorded(s: Fs) {
    forall v :: v in s.nodes && s.nodes[v].mount.Some? ==> Mount(s.nodes[v].mount.value, v) in s.mounts
  }

  // ---------------------------------------------------------------- mounts

  /** The index of the mount whose root is v; the length of the table if there is none. */
  function MountOf(mounts: seq<Mount>, v: nat): (i: nat)
    ensures i <= |mounts| && (i < |mounts| ==> mounts[i].root == v)
    ensures forall j :: 0 <= j < i ==> mounts[j].root != v
  {
    if mounts == [] || mounts[0].root == v then 0 else 1 + MountOf(mounts[1..], v)
  }

  /** Down through the mounts that cover v. */
  function Cross(s: Fs, v: nat): (r: nat)
    requires Wf(s) && v in s.nodes
    ensures r in s.nodes && s.nodes[r].mount == None
    decreases s.next - v
  {
    assert NodeOk(s, v);
    if s.nodes[v].mount.Some? then
      assert NodeOk(s, s.nodes[v].mount.value);
      Cross(s, s.nodes[v].mount.value)
    else v
  }

  /** Up through the mounts that v is the root of. */
  function Pop(s: Fs, v: nat): (r: nat)
    requires Wf(s) && RootBare(s) && v in s.nodes && v != s.root
    ensures r in s.nodes && r != s.root && MountOf(s.mounts, r) == |s.mounts|
    decreases v
  {
    var i := MountOf(s.mounts, v);
    if i == |s.mounts| then v
    else
      assert MountOk(s, i) && MountOk(s, 0);
      Pop(s, s.mounts[i].mountpoint)
  }

  // ---------------------------------------------------------------- one component

  /** The entry of directory v with the given name: the first slot that has it. */
  function SlotOf(s: Fs, entries: seq<Option<nat>>, name: seq<byte>): (i: nat)
    ensures i <= |entries|
    ensures i < |entries| ==> entries[i].Some? && entries[i].value in s.nodes && s.nodes[entries[i].value].name == name
    ensures forall j :: 0 <= j < i ==> !(entries[j].Some? && entries[j].value in s.nodes && s.nodes[entries[j].value].name == name)
  {
    if entries == [] || (entries[0].Some? && entries[0].value in s.nodes && s.nodes[entries[0].value].name == name) then 0
    else 1 + SlotOf(s, entries[1..], name)
  }

  lemma EntryFacts(s: Fs, v: nat, i: nat)
    requires Wf(s) && v in s.nodes && i < |s.nodes[v].entries| && s.nodes[v].entries[i].Some?
    ensures |s.nodes[v].entries| == MAX_ENTRIES
    ensures var n := s.nodes[v].entries[i].value; n in s.nodes && s.nodes[n].parent == v && n != s.root && v < n
  {
    assert NodeOk(s, v);
    assert EntryOk(s, v, i);
  }

  lemma SixteenEntries(s: Fs, v: nat)
    requires Wf(s) && v in s.nodes
    ensures |s.nodes[v].entries| == MAX_ENTRIES && s.nodes[v].parent in s.nodes && s.root in s.nodes
  {
    assert NodeOk(s, v);
  }

  /** The driver's lookup. */
  function Child(s: Fs, v: nat, name: seq<byte>): (r: Option<nat>)
    requires Wf(s) && v in s.nodes
    ensures r.Some? ==> r.value in s.nodes && s.nodes[r.value].parent == v && r.value != s.root && s.nodes[r.value].name == name
                        && v < r.value
  {
    hide Wf;
    var i := SlotOf(s, s.nodes[v].entries, name);
    if s.nodes[v].isDir && i < |s.nodes[v].entries| then
      EntryFacts(s, v, i);
      s.nodes[v].entries[i]
    else None
  }

  /** Where ".." leads. */
  function Up(s: Fs, v: nat): (r: nat)
    requires Wf(s) && RootBare(s) && v in s.nodes
    ensures r in s.nodes
  {
    if v == s.root then v
    else
      var u := Pop(s, v);
      assert NodeOk(s, u);
      Cross(s, s.nodes[u].parent)
  }

  function Step(s: Fs, v: nat, c: seq<byte>): (r: Option<nat>)
    requires Wf(s) && RootBare(s) && v in s.nodes
    ensures r.Some? ==> r.value in s.nodes
  {
    if c == DOT then Some(v)
    else if c == DOT_DOT then Some(Up(s, v))
    else
      var n := Child(s, v, c);
      if n.Some? then Some(Cross(s, n.value)) else None
  }

  function Walk(s: Fs, v: nat, cs: seq<seq<byte>>): (r: Option<nat>)
    requires Wf(s) && RootBare(s) && v in s.nodes
    ensures r.Some? ==> r.value in s.nodes
    decreases |cs|
  {
    if cs == [] then Some(v)
    else
      var n := Step(s, v, cs[0]);
      if n.Some? then Walk(s, n.value, cs[1..]) else None
  }

  // ---------------------------------------------------------------- paths

  /** The components of a path: the maximal runs without a slash, cut to 15 characters. */
  function Components(p: seq<byte>): (cs: seq<seq<byte>>)
    decreases |p|
  {
    if p == [] then []
    else if p[0] == SLASH then Components(p[1..])
    else [Take(p[..IndexOf(p, SLASH)], MAX_NAME - 1)] + Components(p[IndexOf(p, SLASH)..])
  }

  function Start(s: Fs, base: nat, p: seq<byte>): nat {
    if p != [] && p[0] == SLASH then s.root else base
  }

  /** What vfs_lookup_from finds. */
  function Lookup(s: Fs, base: nat, p: seq<byte>): (r: Option<nat>)
    requires Wf(s) && RootBare(s) && base in s.nodes
    ensures r.Some? ==> r.value in s.nodes
  {
    if p == [] then None else Walk(s, Start(s, base, p), Components(p))
  }

  lemma {:induction false} WalkAppend(s: Fs, v: nat, a: seq<seq<byte>>, b: seq<seq<byte>>)
    requires Wf(s) && RootBare(s) && v in s.nodes
    ensures Walk(s, v, a + b) == if Walk(s, v, a).Some? then Walk(s, Walk(s, v, a).value, b) else None
    decreases |a|
  {
    hide Wf, Step, RootBare;
    if a == [] {
      assert a + b == b;
    } else {
      assert (a + b)[1..] == a[1..] + b;
      if Step(s, v, a[0]).Some? {
        WalkAppend(s, Step(s, v, a[0]).value, a[1..], b);
      }
    }
  }

  lemma {:induction false} IndexOfAppend(p: seq<byte>, q: seq<byte>)
    ensures IndexOf(p + [SLASH] + q, SLASH) == IndexOf(p, SLASH)
    decreases |p|
  {
    if p != [] && p[0] != SLASH {
      assert (p + [SLASH] + q)[1..] == p[1..] + [SLASH] + q;
      IndexOfAppend(p[1..], q);
    }
  }

  /** The components of p/q are those of p followed by those of q; slashes in excess do not count. */
  lemma {:induction false} ComponentsAppend(p: seq<byte>, q: seq<byte>)
    ensures Components(p + [SLASH] + q) == Components(p) + Components(q)
    decreases |p|
  {
    hide IndexOf, Take;
    var r := p + [SLASH] + q;
    if p == [] {
      assert r[1..] == q;
    } else if p[0] == SLASH {
      assert r[1..] == p[1..] + [SLASH] + q;
      ComponentsAppend(p[1..], q);
    } else {
      var k := IndexOf(p, SLASH);
      IndexOfAppend(p, q);
      IndexPositive(p);
      assert r[..k] == p[..k];
      assert r[k..] == p[k..] + [SLASH] + q;
      ComponentsAppend(p[k..], q);
    }
  }

  lemma IndexPositive(p: seq<byte>)
    requires p != [] && p[0] != SLASH
    ensures IndexOf(p, SLASH) > 0
  {
  }

  /** Lookup of p/q is lookup of q from where p leads, for a relative q that is not empty. */
  lemma LookupAppend(s: Fs, base: nat, p: seq<byte>, q: seq<byte>)
    requires Wf(s) && RootBare(s) && base in s.nodes && p != [] && q != [] && q[0] != SLASH
    ensures Lookup(s, base, p + [SLASH] + q) ==
            if Lookup(s, base, p).Some? then Lookup(s, Lookup(s, base, p).value, q) else None
  {
    hide Wf, RootBare, Walk;
    assert (p + [SLASH] + q)[0] == p[0];
    SixteenEntries(s, base);
    ComponentsAppend(p, q);
    WalkAppend(s, Start(s, base, p), Components(p), Components(q));
  }

  /** Trailing and repeated slashes do not matter. */
  lemma SlashesDoNotMatter(s: Fs, base: nat, p: seq<byte>, q: seq<byte>)
    requires Wf(s) && RootBare(s) && base in s.nodes && p != []
    ensures Lookup(s, base, p + [SLASH]) == Lookup(s, base, p)
    ensures Lookup(s, base, p + [SLASH] + [SLASH] + q) == Lookup(s, base, p + [SLASH] + q)
  {
    hide Wf, RootBare, Walk;
    SixteenEntries(s, base);
    ComponentsAppend(p, []);
    assert Components([]) == [] && Components(p) + [] == Components(p);
    assert p + [SLASH] + [] == p + [SLASH];
    ComponentsAppend(p, q);
    ComponentsAppend(p, [SLASH] + q);
    assert p + [SLASH] + ([SLASH] + q) == p + [SLASH] + [SLASH] + q;
    assert ([SLASH] + q)[1..] == q;
    assert (p + [SLASH])[0] == p[0] && (p + [SLASH] + q)[0] == p[0] && (p + [SLASH] + [SLASH] + q)[0] == p[0];
  }

  // ---------------------------------------------------------------- ".." undoes a component

  lemma MountOfIndex(s: Fs, i: nat)
    requires Wf(s) && i < |s.mounts|
    ensures MountOf(s.mounts, s.mounts[i].root) == i
  {
    var j := MountOf(s.mounts, s.mounts[i].root);
    assert forall h :: 0 <= h < i ==> s.mounts[h].root != s.mounts[i].root;
  }

  /** Popping what was crossed leads back. */
  lemma {:induction false} PopOfCross(s: Fs, v: nat)
    requires Wf(s) && RootBare(s) && AllRecorded(s) && v in s.nodes && v != s.root
    ensures Cross(s, v) != s.root && Pop(s, Cross(s, v)) == Pop(s, v)
    decreases s.next - v
  {
    hide Wf, RootBare, MountOf;
    if s.nodes[v].mount.Some? {
      var r := s.nodes[v].mount.value;
      RecordedMount(s, v);
      PopOfCross(s, r);
    }
  }

  /** The root of a recorded mount is popped to the vnode it covers. */
  lemma RecordedMount(s: Fs, v: nat)
    requires Wf(s) && AllRecorded(s) && v in s.nodes && s.nodes[v].mount.Some?
    ensures var r := s.nodes[v].mount.value;
            var i := MountOf(s.mounts, r);
            v < r < s.next && r in s.nodes && r != s.root && i < |s.mounts| && s.mounts[i].mountpoint == v
  {
    hide Wf, MountOf, EntryOk;
    var r := s.nodes[v].mount.value;
    NodeFacts(s, v);
    NodeFacts(s, r);
    var i :| 0 <= i < |s.mounts| && s.mounts[i] == Mount(r, v);
    MountFacts(s, i);
    MountFacts(s, 0);
    MountOfIndex(s, i);
  }

  lemma NodeFacts(s: Fs, v: nat)
    requires Wf(s) && v in s.nodes
    ensures NodeOk(s, v)
  {
    hide NodeOk, MountOk;
  }

  lemma MountFacts(s: Fs, i: nat)
    requires Wf(s) && i < |s.mounts|
    ensures MountOk(s, i)
  {
    hide NodeOk, MountOk;
  }

  lemma EntryNotRoot(s: Fs, v: nat, n: nat)
    requires Wf(s) && n in s.nodes && s.nodes[n].parent == v && v < n
    ensures MountOf(s.mounts, n) == |s.mounts|
  {
    var i := MountOf(s.mounts, n);
    assert i < |s.mounts| ==> MountOk(s, i);
  }

  /** From an uncovered vnode, a component and then ".." lead back to it, through any stack of
      mounts on the component. */
  lemma StepThenUp(s: Fs, v: nat, c: seq<byte>)
    requires Wf(s) && RootBare(s) && AllRecorded(s) && v in s.nodes && s.nodes[v].mount == None
    requires c != DOT && c != DOT_DOT && Step(s, v, c).Some?
    ensures Step(s, Step(s, v, c).value, DOT_DOT) == Some(v)
  {
    hide Wf, AllRecorded;
    var n := Child(s, v, c).value;
    EntryNotRoot(s, v, n);
    PopOfCross(s, n);
  }

  lemma StepUncovered(s: Fs, v: nat, c: seq<byte>)
    requires Wf(s) && RootBare(s) && v in s.nodes && s.nodes[v].mount == None && Step(s, v, c).Some?
    ensures s.nodes[Step(s, v, c).value].mount == None
  {
    hide Wf;
  }

  /** Where a walk ends nothing is mounted, if nothing is where it starts. */
  lemma {:induction false} WalkUncovered(s: Fs, v: nat, cs: seq<seq<byte>>)
    requires Wf(s) && RootBare(s) && v in s.nodes && s.nodes[v].mount == None
    ensures Walk(s, v, cs).Some? ==> s.nodes[Walk(s, v, cs).value].mount == None
    decreases |cs|
  {
    hide Wf, RootBare, Up, Child;
    if cs != [] && Step(s, v, cs[0]).Some? {
      StepUncovered(s, v, cs[0]);
      WalkUncovered(s, Step(s, v, cs[0]).value, cs[1..]);
    }
  }

  lemma OneComponent(c: seq<byte>)
    requires c != [] && SLASH !in c && |c| < MAX_NAME
    ensures Components(c) == [c]
  {
    NoSlash(c);
    assert c[..|c|] == c && Components(c[|c|..]) == [];
  }

  lemma {:induction false} NoSlash(c: seq<byte>)
    requires SLASH !in c
    ensures IndexOf(c, SLASH) == |c|
  {
    if c != [] { NoSlash(c[1..]); }
  }

  /** p/c/.. resolves to what p resolves to, whenever p/c resolves from an uncovered base. */
  lemma DotDotUndoes(s: Fs, base: nat, p: seq<byte>, c: seq<byte>)
    requires Wf(s) && RootBare(s) && AllRecorded(s) && base in s.nodes && s.nodes[base].mount == None
    requires p != [] && c != [] && SLASH !in c && |c| < MAX_NAME && c != DOT && c != DOT_DOT
    requires Lookup(s, base, p + [SLASH] + c).Some?
    ensures Lookup(s, base, p + [SLASH] + c + [SLASH] + DOT_DOT) == Lookup(s, base, p)
  {
    hide Wf, RootBare, AllRecorded, Step, Walk;
    LookupAppend(s, base, p, c);
    var v := Lookup(s, base, p).value;
    StartUncovered(s, base, p);
    WalkUncovered(s, Start(s, base, p), Components(p));
    OneComponent(c);
    OneComponent(DOT_DOT);
    WalkOne(s, v, c);
    StepThenUp(s, v, c);
    LookupAppend(s, base, p + [SLASH] + c, DOT_DOT);
    WalkOne(s, Step(s, v, c).value, DOT_DOT);
  }

  lemma WalkOne(s: Fs, v: nat, c: seq<byte>)
    requires Wf(s) && RootBare(s) && v in s.nodes
    ensures Walk(s, v, [c]) == Step(s, v, c)
  {
    hide Wf, RootBare, Step;
    var n := Step(s, v, c);
    if n.Some? { assert Walk(s, n.value, [][..]) == n; }
  }

  lemma StartUncovered(s: Fs, base: nat, p: seq<byte>)
    requires Wf(s) && RootBare(s) && base in s.nodes && s.nodes[base].mount == None
    ensures Start(s, base, p) in s.nodes && s.nodes[Start(s, base, p)].mount == None
  {
  }

  // ---------------------------------------------------------------- when ".." does not end

  /** The pop loop after k rounds. */
  function PopRounds(s: Fs, v: nat, k: nat): nat {
    if k == 0 then v
    else
      var u := PopRounds(s, v, k - 1);
      var i := MountOf(s.mounts, u);
      if i < |s.mounts| then s.mounts[i].mountpoint else u
  }

  /** The loop stops after k rounds: v is then the root of no mount. */
  predicate PopStops(s: Fs, v: nat, k: nat) { MountOf(s.mounts, PopRounds(s, v, k)) == |s.mounts| }

  /** One round of the pop loop: to the covered vnode, which is older except at the very root. */
  lemma RoundFacts(s: Fs, u: nat)
    requires Wf(s)
    ensures MountOf(s.mounts, s.root) == 0 && |s.mounts| > 0 && s.mounts[0].mountpoint == s.root
    ensures var i := MountOf(s.mounts, u);
            i < |s.mounts| && u != s.root ==> s.mounts[i].mountpoint in s.nodes && s.mounts[i].mountpoint < u
  {
    assert MountOk(s, 0);
    MountOfIndex(s, 0);
    var i := MountOf(s.mounts, u);
    assert i < |s.mounts| ==> MountOk(s, i);
  }

  lemma {:induction false} RootForever(s: Fs, v: nat, k: nat, h: nat)
    requires Wf(s) && PopRounds(s, v, k) == s.root
    ensures PopRounds(s, v, k + h) == s.root && !PopStops(s, v, k + h)
    decreases h
  {
    hide Wf, MountOf;
    RoundFacts(s, s.root);
    if h > 0 {
      RootForever(s, v, k, h - 1);
    }
  }

  lemma {:induction false} StoppedForever(s: Fs, v: nat, k: nat, h: nat)
    requires PopStops(s, v, k)
    ensures PopRounds(s, v, k + h) == PopRounds(s, v, k) && PopStops(s, v, k + h)
    decreases h
  {
    hide MountOf;
    if h > 0 {
      StoppedForever(s, v, k, h - 1);
    }
  }

  /** Below the root of the root filesystem every round goes to an older vnode, so the loop stops
      or meets that root. */
  lemma {:induction false} PopDescends(s: Fs, v: nat, k: nat) returns (j: nat)
    requires Wf(s)
    ensures PopStops(s, v, j) || PopRounds(s, v, j) == s.root
    decreases PopRounds(s, v, k)
  {
    hide Wf, MountOf;
    RoundFacts(s, PopRounds(s, v, k));
    if PopStops(s, v, k) || PopRounds(s, v, k) == s.root {
      j := k;
    } else {
      j := PopDescends(s, v, k + 1);
    }
  }

  /** The pop loop from v ends; it meets the root of the root filesystem. */
  ghost predicate PopEnds(s: Fs, v: nat) { exists k: nat :: PopStops(s, v, k) }

  ghost predicate PopMeetsRoot(s: Fs, v: nat) { exists k: nat :: PopRounds(s, v, k) == s.root }

  /** ".." never ends exactly when its pop loop meets the root of the root filesystem, which is
      recorded as mounted on itself: that is, below a filesystem mounted there. */
  lemma DotDotHangsIff(s: Fs, v: nat)
    requires Wf(s)
    ensures !PopEnds(s, v) <==> PopMeetsRoot(s, v)
  {
    hide Wf, PopStops, PopRounds;
    if PopMeetsRoot(s, v) {
      var k: nat :| PopRounds(s, v, k) == s.root;
      forall n: nat ensures !PopStops(s, v, n) {
        NeverStops(s, v, k, n);
      }
    } else {
      var j := PopDescends(s, v, 0);
    }
  }

  lemma NeverStops(s: Fs, v: nat, k: nat, n: nat)
    requires Wf(s) && PopRounds(s, v, k) == s.root
    ensures !PopStops(s, v, n)
  {
    hide Wf, PopRounds, PopStops;
    RootForever(s, v, k, 0);
    if n >= k {
      RootForever(s, v, k, n - k);
    } else if PopStops(s, v, n) {
      StoppedForever(s, v, n, k - n);
    }
  }

  lemma {:induction false} StaysOffRoot(s: Fs, v: nat, k: nat)
    requires Wf(s) && v != s.root && forall i :: 0 < i < |s.mounts| ==> s.mounts[i].mountpoint != s.root
    ensures PopRounds(s, v, k) != s.root
    decreases k
  {
    if k > 0 {
      StaysOffRoot(s, v, k - 1);
      assert MountOk(s, 0);
    }
  }

  /** ".." ends from every vnode other than that root exactly when nothing is mounted on it. */
  lemma DotDotEndsIff(s: Fs)
    requires Wf(s)
    ensures (forall v :: v in s.nodes && v != s.root ==> PopEnds(s, v))
            <==> forall i :: 0 < i < |s.mounts| ==> s.mounts[i].mountpoint != s.root
  {
    hide Wf, PopStops, PopRounds;
    if i :| 0 < i < |s.mounts| && s.mounts[i].mountpoint == s.root {
      OneRound(s, i);
      forall n ensures !PopStops(s, s.mounts[i].root, n) {
        NeverStops(s, s.mounts[i].root, 1, n);
      }
      assert !PopEnds(s, s.mounts[i].root);
    } else {
      forall v | v in s.nodes && v != s.root ensures PopEnds(s, v) {
        var j := PopDescends(s, v, 0);
        StaysOffRoot(s, v, j);
      }
    }
  }

  lemma OneRound(s: Fs, i: nat)
    requires Wf(s) && 0 < i < |s.mounts|
    ensures s.mounts[i].root in s.nodes && s.mounts[i].root != s.root && PopRounds(s, s.mounts[i].root, 1) == s.mounts[i].mountpoint
  {
    assert MountOk(s, i);
    MountOfIndex(s, i);
    assert PopRounds(s, s.mounts[i].root, 0) == s.mounts[i].root;
  }

  /** A root directory with a filesystem mounted on it. */
  function CoveredRoot(): Fs {
    Fs(map[0 := Vnode(Some(1), 0, true, [], seq(MAX_ENTRIES, _ => None), true),
           1 := Vnode(None, 1, true, [], seq(MAX_ENTRIES, _ => None), true)],
       [Mount(0, 0), Mount(1, 0)], 0, 2)
  }

  /** There ".." in the mounted root, and so in "/", never ends. */
  lemma DotDotHangsUnderRoot()
    ensures Wf(CoveredRoot()) && Cross(CoveredRoot(), CoveredRoot().root) == 1 && !PopEnds(CoveredRoot(), 1)
  {
    var s := CoveredRoot();
    assert NodeOk(s, 0) && NodeOk(s, 1) && MountOk(s, 0) && MountOk(s, 1);
    assert Cross(s, 1) == 1;
    OneRound(s, 1);
    DotDotHangsIff(s, 1);
  }
}
