/** Three-level page tables as pages of 512 entries (Sv39; lab7/src/paging.c:125-270), on values.
    `role` records, for every table page, the one slot that owns it: a root, the middle table
    of root entry i, or the last table of slot (i, j).  Ownership being a function of the page
    is what makes writes through one root invisible through every other. */
module PageTree {
  import opened Pte

  const ENTRIES := 512
  const USER_ENTRIES := 256

  type Table = seq<Pte>

  datatype Role = Root | Mid(root: nat, i: nat) | Low(root: nat, i: nat, j: nat)

  /** A page of zero words. */
  function Zeros(): (r: Table)
    ensures |r| == ENTRIES && forall k :: 0 <= k < ENTRIES ==> r[k] == ZERO
  {
    seq(ENTRIES, _ => ZERO)
  }

  /** The virtual page number with indices i, j, k. */
  function Vpn(i: nat, j: nat, k: nat): nat { i * 262144 + j * 512 + k }

  lemma VpnParts(i: nat, j: nat, k: nat)
    requires j < ENTRIES && k < ENTRIES
    ensures var v := Vpn(i, j, k); v / 262144 == i && v / 512 % 512 == j && v % 512 == k
    ensures i < USER_ENTRIES <==> Vpn(i, j, k) < USER_PAGES
  {
    var v := Vpn(i, j, k);
    assert v / 512 == i * 512 + j;
  }

  lemma PartsVpn(v: nat)
    ensures v == Vpn(v / 262144, v / 512 % 512, v % 512)
    ensures v < USER_PAGES <==> v / 262144 < USER_ENTRIES
  {
    assert v / 512 / 512 == v / 262144;
  }

  /** The table page that entry i of page p points to; 0 for an entry that is not valid. */
  function Child(t: map<nat, Table>, p: nat, i: nat): nat {
    if p in t && i < |t[p]| && t[p][i].f.v then t[p][i].pa else 0
  }

  /** The leaf entry reached through indices i, j, k; ZERO when the walk stops early. */
  function LeafAt(t: map<nat, Table>, r: nat, i: nat, j: nat, k: nat): Pte {
    var l := Child(t, Child(t, r, i), j);
    if l in t && k < |t[l]| && t[l][k].f.v then t[l][k] else ZERO
  }

  function Leaf(t: map<nat, Table>, r: nat, v: nat): Pte {
    LeafAt(t, r, v / 262144, v / 512 % 512, v % 512)
  }

  // ---------------------------------------------------------------- invariant

  predicate IsRoot(role: map<nat, Role>, r: nat) { r in role && role[r] == Root }

  predicate HasRole(role: map<nat, Role>, p: nat, x: Role) { p in role && role[p] == x }

  /** The flags of an entry that leads to the next table: the permissions are clear, and so are the
      bits that Sv39 reserves in such an entry. */
  predicate LeadsOn(f: Flags) { f.v && !f.r && !f.w && !f.x && !f.u && !f.a && !f.d }

  /** Entry i of table page p, if valid, leads to the page that this slot owns. */
  predicate DownOk(t: map<nat, Table>, role: map<nat, Role>, p: nat, i: nat)
    requires p in t && p in role && |t[p]| == ENTRIES && i < ENTRIES
  {
    t[p][i].f.v ==>
      match role[p]
      case Root => i < USER_ENTRIES ==> LeadsOn(t[p][i].f) && HasRole(role, t[p][i].pa, Mid(p, i))
      case Mid(r, h) => LeadsOn(t[p][i].f) && HasRole(role, t[p][i].pa, Low(r, h, i))
      case Low(_, _, _) => true
  }

  /** The slot that owns p does point to p. */
  predicate UpOk(t: map<nat, Table>, role: map<nat, Role>, p: nat)
    requires p in role
  {
    match role[p]
    case Root => true
    case Mid(r, i) => i < USER_ENTRIES && IsRoot(role, r) && Child(t, r, i) == p
    case Low(r, i, j) => i < USER_ENTRIES && j < ENTRIES && IsRoot(role, r)
                         && HasRole(role, Child(t, r, i), Mid(r, i)) && Child(t, Child(t, r, i), j) == p
  }

  ghost predicate TreeOk(t: map<nat, Table>, role: map<nat, Role>) {
    && t.Keys == role.Keys && 0 !in role
    && (forall p :: p in t ==> |t[p]| == ENTRIES)
    && (forall p, i :: p in t && 0 <= i < ENTRIES ==> DownOk(t, role, p, i))
    && (forall p :: p in role ==> UpOk(t, role, p))
  }

  /** leaves is exactly the finite map the tables implement: (root, vpn) to entry. */
  ghost predicate Sync(t: map<nat, Table>, role: map<nat, Role>, leaves: map<(nat, nat), Pte>) {
    && (forall m :: m in leaves ==> IsRoot(role, m.0) && m.1 < USER_PAGES && leaves[m].f.v)
    && (forall r: nat, v: nat {:trigger Leaf(t, r, v)} :: IsRoot(role, r) && v < USER_PAGES ==>
          Leaf(t, r, v) == if (r, v) in leaves then leaves[(r, v)] else ZERO)
  }

  // ---------------------------------------------------------------- updates

  function AddTable(t: map<nat, Table>, p: nat, i: nat, c: nat): map<nat, Table>
    requires p in t && i < |t[p]|
  {
    t[p := t[p][i := Pte(c, TABLE_FLAGS)]][c := Zeros()]
  }

  function SetEntry(t: map<nat, Table>, p: nat, i: nat, e: Pte): map<nat, Table>
    requires p in t && i < |t[p]|
  {
    t[p := t[p][i := e]]
  }

  /** The role of the table below entry i of page p. */
  function Below(role: map<nat, Role>, p: nat, i: nat): Role
    requires p in role && !role[p].Low?
  {
    match role[p]
    case Root => Mid(p, i)
    case Mid(r, h) => Low(r, h, i)
  }

  lemma ChildFrame(t: map<nat, Table>, role: map<nat, Role>, p: nat, i: nat, c: nat, q: nat, h: nat)
    requires TreeOk(t, role) && p in t && i < ENTRIES && c !in t && c != 0 && !t[p][i].f.v
    ensures Child(AddTable(t, p, i, c), q, h) == if q == p && h == i then c else Child(t, q, h)
  {
  }

  /** Linking a fresh zero table below an empty slot keeps the tree well formed. */
  lemma AddTableOk(t: map<nat, Table>, role: map<nat, Role>, p: nat, i: nat, c: nat)
    requires TreeOk(t, role) && p in t && i < ENTRIES && c !in t && c != 0 && !t[p][i].f.v
    requires !role[p].Low? && (role[p].Root? ==> i < USER_ENTRIES)
    ensures TreeOk(AddTable(t, p, i, c), role[c := Below(role, p, i)])
  {
    var t' := AddTable(t, p, i, c);
    var role' := role[c := Below(role, p, i)];
    forall q, h | q in t' && 0 <= h < ENTRIES ensures DownOk(t', role', q, h) {
      if q != c { assert DownOk(t, role, q, h); }
    }
    forall q | q in role' ensures UpOk(t', role', q) {
      if q != c { AddTableUp(t, role, p, i, c, q); } else { assert UpOk(t, role, p); AddTableUpNew(t, role, p, i, c); }
    }
  }

  lemma AddTableUp(t: map<nat, Table>, role: map<nat, Role>, p: nat, i: nat, c: nat, q: nat)
    requires TreeOk(t, role) && p in t && i < ENTRIES && c !in t && c != 0 && !t[p][i].f.v
    requires !role[p].Low? && (role[p].Root? ==> i < USER_ENTRIES) && q in role
    ensures UpOk(AddTable(t, p, i, c), role[c := Below(role, p, i)], q)
  {
    assert UpOk(t, role, q);
    match role[q]
    case Root =>
    case Mid(r, h) => ChildFrame(t, role, p, i, c, r, h);
    case Low(r, h, j) =>
      ChildFrame(t, role, p, i, c, r, h);
      ChildFrame(t, role, p, i, c, Child(t, r, h), j);
  }

  lemma AddTableUpNew(t: map<nat, Table>, role: map<nat, Role>, p: nat, i: nat, c: nat)
    requires TreeOk(t, role) && p in t && i < ENTRIES && c !in t && c != 0 && !t[p][i].f.v
    requires !role[p].Low? && (role[p].Root? ==> i < USER_ENTRIES) && UpOk(t, role, p)
    ensures UpOk(AddTable(t, p, i, c), role[c := Below(role, p, i)], c)
  {
    ChildFrame(t, role, p, i, c, p, i);
    if role[p].Mid? {
      ChildFrame(t, role, p, i, c, role[p].root, role[p].i);
    }
  }

  /** A fresh table maps nothing, and no other leaf moves. */
  lemma AddTableLeaf(t: map<nat, Table>, role: map<nat, Role>, p: nat, i: nat, c: nat, r: nat, a: nat, b: nat, k: nat)
    requires TreeOk(t, role) && p in t && i < ENTRIES && c !in t && c != 0 && !t[p][i].f.v
    requires !role[p].Low? && (role[p].Root? ==> i < USER_ENTRIES)
    requires IsRoot(role, r) && a < USER_ENTRIES && b < ENTRIES && k < ENTRIES
    ensures LeafAt(AddTable(t, p, i, c), r, a, b, k) == LeafAt(t, r, a, b, k)
  {
    var t' := AddTable(t, p, i, c);
    ChildFrame(t, role, p, i, c, r, a);
    var m := Child(t, r, a);
    assert DownOk(t, role, r, a);
    if r == p && a == i {
      assert Child(t', c, b) == 0;
    } else if m != 0 {
      ChildFrame(t, role, p, i, c, m, b);
      assert DownOk(t, role, m, b);
      var l := Child(t, m, b);
      if l != 0 { assert role[l].Low?; }
    }
  }

  /** Linking a fresh table leaves the implemented map as it was. */
  lemma AddTableSync(t: map<nat, Table>, role: map<nat, Role>, leaves: map<(nat, nat), Pte>, p: nat, i: nat, c: nat)
    requires TreeOk(t, role) && Sync(t, role, leaves)
    requires p in t && i < ENTRIES && c !in t && c != 0 && !t[p][i].f.v
    requires !role[p].Low? && (role[p].Root? ==> i < USER_ENTRIES)
    ensures Sync(AddTable(t, p, i, c), role[c := Below(role, p, i)], leaves)
  {
    var t' := AddTable(t, p, i, c);
    var role' := role[c := Below(role, p, i)];
    forall r: nat, v: nat | IsRoot(role', r) && v < USER_PAGES
      ensures IsRoot(role, r) && Leaf(t', r, v) == Leaf(t, r, v)
    {
      PartsVpn(v);
      AddTableLeaf(t, role, p, i, c, r, v / 262144, v / 512 % 512, v % 512);
    }
  }

  /** Writing one entry of a last-level table. */
  lemma SetLeafOk(t: map<nat, Table>, role: map<nat, Role>, l: nat, k: nat, e: Pte)
    requires TreeOk(t, role) && l in t && role[l].Low? && k < ENTRIES
    ensures TreeOk(SetEntry(t, l, k, e), role)
  {
    var t' := SetEntry(t, l, k, e);
    forall q, h | q in t' && 0 <= h < ENTRIES ensures DownOk(t', role, q, h) {
      assert DownOk(t, role, q, h);
    }
    forall q | q in role ensures UpOk(t', role, q) {
      assert UpOk(t, role, q);
    }
  }

  /** A last-level table serves exactly one slot of one root, so exactly one leaf changes. */
  lemma SetLeafLeaf(t: map<nat, Table>, role: map<nat, Role>, l: nat, k: nat, e: Pte, r: nat, a: nat, b: nat, h: nat)
    requires TreeOk(t, role) && l in t && role[l].Low? && k < ENTRIES
    requires IsRoot(role, r) && a < USER_ENTRIES && b < ENTRIES && h < ENTRIES
    ensures LeafAt(SetEntry(t, l, k, e), r, a, b, h)
         == if role[l] == Low(r, a, b) && h == k then (if e.f.v then e else ZERO) else LeafAt(t, r, a, b, h)
  {
    var t' := SetEntry(t, l, k, e);
    assert UpOk(t, role, l);
    assert DownOk(t, role, r, a);
    var m := Child(t, r, a);
    assert Child(t', r, a) == m;
    if m != 0 {
      assert DownOk(t, role, m, b);
      assert Child(t', m, b) == Child(t, m, b);
    }
  }

  /** The leaf map after writing entry e for (r, v): an invalid entry removes the leaf. */
  function Updated(leaves: map<(nat, nat), Pte>, r: nat, v: nat, e: Pte): map<(nat, nat), Pte> {
    if e.f.v then leaves[(r, v) := e] else leaves - {(r, v)}
  }

  lemma SetLeafSync(t: map<nat, Table>, role: map<nat, Role>, leaves: map<(nat, nat), Pte>, l: nat, k: nat, e: Pte)
    requires TreeOk(t, role) && Sync(t, role, leaves) && l in t && role[l].Low? && k < ENTRIES
    ensures var Low(r, i, j) := role[l]; Sync(SetEntry(t, l, k, e), role, Updated(leaves, r, Vpn(i, j, k), e))
  {
    var t' := SetEntry(t, l, k, e);
    var Low(r, i, j) := role[l];
    assert UpOk(t, role, l);
    VpnParts(i, j, k);
    forall q: nat, v: nat | IsRoot(role, q) && v < USER_PAGES
      ensures Leaf(t', q, v) == if q == r && v == Vpn(i, j, k) then (if e.f.v then e else ZERO) else Leaf(t, q, v)
    {
      PartsVpn(v);
      SetLeafLeaf(t, role, l, k, e, q, v / 262144, v / 512 % 512, v % 512);
    }
  }

  /** What a last-level table says about the pages of its slot. */
  lemma LowEntry(t: map<nat, Table>, role: map<nat, Role>, l: nat, k: nat)
    requires TreeOk(t, role) && l in t && role[l].Low? && k < ENTRIES
    ensures var Low(r, i, j) := role[l];
            i < USER_ENTRIES && j < ENTRIES && IsRoot(role, r)
            && Leaf(t, r, Vpn(i, j, k)) == if t[l][k].f.v then t[l][k] else ZERO
  {
    assert UpOk(t, role, l);
    var Low(r, i, j) := role[l];
    VpnParts(i, j, k);
  }

  /** A slot without a middle or last table maps nothing. */
  lemma EmptySlot(t: map<nat, Table>, role: map<nat, Role>, r: nat, i: nat, j: nat, k: nat)
    requires TreeOk(t, role) && IsRoot(role, r) && i < USER_ENTRIES && j < ENTRIES && k < ENTRIES
    requires Child(t, r, i) == 0 || Child(t, Child(t, r, i), j) == 0
    ensures Leaf(t, r, Vpn(i, j, k)) == ZERO
  {
    VpnParts(i, j, k);
  }

  // ---------------------------------------------------------------- removal

  /** Unlink the table below entry i of page p. */
  function RemoveTable(t: map<nat, Table>, p: nat, i: nat): map<nat, Table>
    requires p in t && i < |t[p]|
  {
    t[p := t[p][i := ZERO]] - {Child(t, p, i)}
  }

  predicate NoEntries(e: Table) { forall k :: 0 <= k < |e| ==> !e[k].f.v }

  lemma RemoveChild(t: map<nat, Table>, role: map<nat, Role>, p: nat, i: nat, q: nat, h: nat)
    requires TreeOk(t, role) && p in t && i < ENTRIES && Child(t, p, i) in t && Child(t, p, i) != p
    requires NoEntries(t[Child(t, p, i)])
    ensures Child(RemoveTable(t, p, i), q, h) == if q == p && h == i then 0 else Child(t, q, h)
  {
  }

  /** The table below an entry has exactly the role of that slot, so it is no other page's child. */
  lemma ChildRole(t: map<nat, Table>, role: map<nat, Role>, p: nat, i: nat)
    requires TreeOk(t, role) && p in t && !role[p].Low? && i < ENTRIES && (role[p].Root? ==> i < USER_ENTRIES)
    requires Child(t, p, i) != 0
    ensures HasRole(role, Child(t, p, i), Below(role, p, i)) && Child(t, p, i) != p
  {
    assert DownOk(t, role, p, i);
  }

  lemma RemoveTableOk(t: map<nat, Table>, role: map<nat, Role>, p: nat, i: nat)
    requires TreeOk(t, role) && p in t && !role[p].Low? && i < ENTRIES && (role[p].Root? ==> i < USER_ENTRIES)
    requires Child(t, p, i) in t && NoEntries(t[Child(t, p, i)])
    ensures TreeOk(RemoveTable(t, p, i), role - {Child(t, p, i)})
  {
    ChildRole(t, role, p, i);
    var c := Child(t, p, i);
    var t' := RemoveTable(t, p, i);
    var role' := role - {c};
    forall q, h | q in t' && 0 <= h < ENTRIES ensures DownOk(t', role', q, h) {
      assert DownOk(t, role, q, h);
      if !role[q].Low? && (role[q].Root? ==> h < USER_ENTRIES) && Child(t, q, h) == c {
        OtherChild(t, role, p, i, q, h);
      }
    }
    forall q | q in role' ensures UpOk(t', role', q) {
      RemoveUp(t, role, p, i, q);
    }
  }

  lemma OtherChild(t: map<nat, Table>, role: map<nat, Role>, p: nat, i: nat, q: nat, h: nat)
    requires TreeOk(t, role) && p in t && !role[p].Low? && i < ENTRIES && (role[p].Root? ==> i < USER_ENTRIES)
    requires q in t && !role[q].Low? && h < ENTRIES && (role[q].Root? ==> h < USER_ENTRIES)
    requires Child(t, p, i) != 0 && Child(t, q, h) == Child(t, p, i)
    ensures q == p && h == i
  {
    ChildRole(t, role, p, i);
    ChildRole(t, role, q, h);
    assert UpOk(t, role, p) && UpOk(t, role, q);
  }

  lemma RemoveUp(t: map<nat, Table>, role: map<nat, Role>, p: nat, i: nat, q: nat)
    requires TreeOk(t, role) && p in t && !role[p].Low? && i < ENTRIES && (role[p].Root? ==> i < USER_ENTRIES)
    requires Child(t, p, i) in t && NoEntries(t[Child(t, p, i)]) && q in role && q != Child(t, p, i)
    ensures UpOk(RemoveTable(t, p, i), role - {Child(t, p, i)}, q)
  {
    ChildRole(t, role, p, i);
    assert UpOk(t, role, q);
    match role[q]
    case Root =>
    case Mid(r, h) => RemoveChild(t, role, p, i, r, h);
    case Low(r, h, j) =>
      RemoveChild(t, role, p, i, r, h);
      RemoveChild(t, role, p, i, Child(t, r, h), j);
  }

  /** An empty table maps nothing, so unlinking it leaves the implemented map as it was. */
  lemma RemoveTableSync(t: map<nat, Table>, role: map<nat, Role>, leaves: map<(nat, nat), Pte>, p: nat, i: nat)
    requires TreeOk(t, role) && Sync(t, role, leaves)
    requires p in t && !role[p].Low? && i < ENTRIES && (role[p].Root? ==> i < USER_ENTRIES)
    requires Child(t, p, i) in t && NoEntries(t[Child(t, p, i)])
    ensures Sync(RemoveTable(t, p, i), role - {Child(t, p, i)}, leaves)
  {
    ChildRole(t, role, p, i);
    var t' := RemoveTable(t, p, i);
    forall r: nat, v: nat | IsRoot(role, r) && v < USER_PAGES ensures Leaf(t', r, v) == Leaf(t, r, v) {
      RemoveLeaf(t, role, p, i, r, v / 262144, v / 512 % 512, v % 512);
    }
  }

  lemma RemoveLeaf(t: map<nat, Table>, role: map<nat, Role>, p: nat, i: nat, r: nat, a: nat, b: nat, k: nat)
    requires TreeOk(t, role) && p in t && !role[p].Low? && i < ENTRIES && (role[p].Root? ==> i < USER_ENTRIES)
    requires Child(t, p, i) in t && NoEntries(t[Child(t, p, i)])
    requires IsRoot(role, r) && a < USER_ENTRIES && b < ENTRIES && k < ENTRIES
    ensures LeafAt(RemoveTable(t, p, i), r, a, b, k) == LeafAt(t, r, a, b, k)
  {
    ChildRole(t, role, p, i);
    RemoveChild(t, role, p, i, r, a);
    var m := Child(t, r, a);
    assert DownOk(t, role, r, a);
    if m == 0 || (r == p && a == i) {
      RemoveChild(t, role, p, i, 0, b);
    } else {
      RemoveChild(t, role, p, i, m, b);
      assert DownOk(t, role, m, b);
      if Child(t, m, b) == Child(t, p, i) { OtherChild(t, role, p, i, m, b); }
    }
  }

  // ---------------------------------------------------------------- roots

  lemma AddRootTree(t: map<nat, Table>, role: map<nat, Role>, r: nat, page: Table)
    requires TreeOk(t, role) && r !in t && r != 0
    requires |page| == ENTRIES && forall i :: 0 <= i < USER_ENTRIES ==> !page[i].f.v
    ensures TreeOk(t[r := page], role[r := Root])
  {
    var t', role' := t[r := page], role[r := Root];
    forall p, i | p in t' && 0 <= i < ENTRIES ensures DownOk(t', role', p, i) {
      if p != r { assert DownOk(t, role, p, i); }
    }
    forall p | p in role' ensures UpOk(t', role', p) {
      if p != r { assert UpOk(t, role, p); }
    }
  }

  /** A new root: empty user half, the kernel's entries in the upper half. */
  lemma AddRootOk(t: map<nat, Table>, role: map<nat, Role>, leaves: map<(nat, nat), Pte>, r: nat, page: Table)
    requires TreeOk(t, role) && Sync(t, role, leaves) && r !in t && r != 0
    requires |page| == ENTRIES && forall i :: 0 <= i < USER_ENTRIES ==> !page[i].f.v
    ensures TreeOk(t[r := page], role[r := Root]) && Sync(t[r := page], role[r := Root], leaves)
    ensures forall m :: m in leaves ==> m.0 != r
  {
    var t', role' := t[r := page], role[r := Root];
    AddRootTree(t, role, r, page);
    forall q: nat, v: nat | IsRoot(role', q) && v < USER_PAGES
      ensures Leaf(t', q, v) == if q == r then ZERO else Leaf(t, q, v)
    {
      PartsVpn(v);
      AddRootLeaf(t, role, r, page, q, v / 262144, v / 512 % 512, v % 512);
    }
  }

  lemma AddRootLeaf(t: map<nat, Table>, role: map<nat, Role>, r: nat, page: Table, q: nat, a: nat, b: nat, k: nat)
    requires TreeOk(t, role) && r !in t && r != 0
    requires |page| == ENTRIES && forall i :: 0 <= i < USER_ENTRIES ==> !page[i].f.v
    requires IsRoot(role[r := Root], q) && a < USER_ENTRIES && b < ENTRIES && k < ENTRIES
    ensures LeafAt(t[r := page], q, a, b, k) == if q == r then ZERO else LeafAt(t, q, a, b, k)
  {
    var t' := t[r := page];
    if q == r {
      assert Child(t', q, a) == 0 && Child(t', 0, b) == 0;
    } else {
      assert DownOk(t, role, q, a);
      var m := Child(t, q, a);
      if m != 0 { assert DownOk(t, role, m, b); }
    }
  }

  /** Dropping a root that has no tables left. */
  lemma RemoveRootOk(t: map<nat, Table>, role: map<nat, Role>, leaves: map<(nat, nat), Pte>, r: nat)
    requires TreeOk(t, role) && Sync(t, role, leaves) && IsRoot(role, r)
    requires forall i :: 0 <= i < USER_ENTRIES ==> !t[r][i].f.v
    ensures TreeOk(t - {r}, role - {r}) && Sync(t - {r}, role - {r}, leaves)
    ensures forall m :: m in leaves ==> m.0 != r
  {
    var t', role' := t - {r}, role - {r};
    forall m | m in leaves ensures m.0 != r {
      if m.0 == r {
        PartsVpn(m.1);
        EmptySlot(t, role, r, m.1 / 262144, m.1 / 512 % 512, m.1 % 512);
      }
    }
    forall p | p in role' ensures UpOk(t', role', p) {
      assert UpOk(t, role, p);
    }
    forall p, i | p in t' && 0 <= i < ENTRIES ensures DownOk(t', role', p, i) {
      assert DownOk(t, role, p, i);
    }
    forall q: nat, v: nat | IsRoot(role', q) && v < USER_PAGES ensures Leaf(t', q, v) == Leaf(t, q, v) {
      PartsVpn(v);
      RemoveRootLeaf(t, role, r, q, v / 262144, v / 512 % 512, v % 512);
    }
  }

  lemma RemoveRootLeaf(t: map<nat, Table>, role: map<nat, Role>, r: nat, q: nat, a: nat, b: nat, k: nat)
    requires TreeOk(t, role) && IsRoot(role, r) && IsRoot(role, q) && q != r
    requires a < USER_ENTRIES && b < ENTRIES && k < ENTRIES
    ensures LeafAt(t - {r}, q, a, b, k) == LeafAt(t, q, a, b, k)
  {
    assert DownOk(t, role, q, a);
    var m := Child(t, q, a);
    if m != 0 { assert DownOk(t, role, m, b); }
  }
}
