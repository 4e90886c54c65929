/** The flattened device tree reader (lab7/src/fdt.c) against a printer of structure blocks
    (section 5.4 of the Devicetree Specification, release 0.4). */
module Fdt {
  import opened Bytes

  const FDT_MAGIC := 0xd00d_feed
  const FDT_BEGIN_NODE := 1
  const FDT_END_NODE := 2
  const FDT_PROP := 3
  const FDT_NOP := 4
  const FDT_END := 9

  const SLASH: byte := 47
  const AT: byte := 64

  datatype Option<T> = None | Some(value: T)

  /** What follows a node's name, up to and including its end token. */
  datatype Body =
    | End
    | Nop(rest: Body)
    | Prop(nameoff: nat, value: seq<byte>, rest: Body)
    | Sub(name: seq<byte>, body: Body, rest: Body)

  // ---------------------------------------------------------------- the printer

  function Name(name: seq<byte>): (s: seq<byte>)
    ensures |s| == Align4(|name| + 1)
  {
    name + Blank(Align4(|name| + 1) - |name|)
  }

  function Value(v: seq<byte>): (s: seq<byte>)
    ensures |s| == Align4(|v|)
  {
    v + Blank(Align4(|v|) - |v|)
  }

  /** Words have their most significant byte first: the magic number at the start of a blob. */
  lemma MagicBytes()
    ensures Word(FDT_MAGIC) == [0xd0, 0x0d, 0xfe, 0xed]
  {
  }

  /** The tokens that open an item: all of it but what is nested in it or follows it. */
  function Head(b: Body): (s: seq<byte>)
    ensures Multiple4(|s|) && |s| >= 4
    ensures |s| == match b
                   case End => 4
                   case Nop(_) => 4
                   case Prop(_, v, _) => 12 + Align4(|v|)
                   case Sub(name, _, _) => 4 + Align4(|name| + 1)
  {
    hide Align4, Word, Name, Value;
    assert Multiple4(4) && Multiple4(12);
    assert b.Prop? ==> Multiple4(12 + Align4(|b.value|)) by { if b.Prop? { Multiples(12, Align4(|b.value|)); } }
    assert b.Sub? ==> Multiple4(4 + Align4(|b.name| + 1)) by { if b.Sub? { Multiples(4, Align4(|b.name| + 1)); } }
    match b
    case End => Word(FDT_END_NODE)
    case Nop(_) => Word(FDT_NOP)
    case Prop(o, v, _) => Word(FDT_PROP) + (Word(|v|) + (Word(o) + Value(v)))
    case Sub(name, _, _) => Word(FDT_BEGIN_NODE) + Name(name)
  }

  function Print(b: Body): (s: seq<byte>)
    ensures |s| >= 4
    decreases b
  {
    match b
    case End => Head(b)
    case Nop(rest) => Head(b) + Print(rest)
    case Prop(_, _, rest) => Head(b) + Print(rest)
    case Sub(_, body, rest) => Head(b) + Print(body) + Print(rest)
  }

  lemma {:induction false} PrintAligned(b: Body)
    ensures Multiple4(|Print(b)|)
    decreases b
  {
    hide Head, Multiple4;
    match b
    case End =>
    case Nop(rest) => PrintAligned(rest); Multiples(|Head(b)|, |Print(rest)|);
    case Prop(_, _, rest) => PrintAligned(rest); Multiples(|Head(b)|, |Print(rest)|);
    case Sub(_, body, rest) =>
      PrintAligned(body);
      PrintAligned(rest);
      Multiples(|Head(b)|, |Print(body)|);
      Multiples(|Head(b)| + |Print(body)|, |Print(rest)|);
  }

  /** A structure block: the root node and the end token. */
  function PrintStruct(root: seq<byte>, b: Body): seq<byte> {
    Word(FDT_BEGIN_NODE) + Name(root) + Print(b) + Word(FDT_END)
  }

  /** Names hold no NUL; lengths and offsets fit their fields. */
  predicate WellFormed(b: Body)
    decreases b
  {
    match b
    case End => true
    case Nop(rest) => WellFormed(rest)
    case Prop(o, v, rest) => o < 0x1_0000_0000 && |v| < 0x1_0000_0000 && WellFormed(rest)
    case Sub(name, body, rest) => 0 !in name && WellFormed(body) && WellFormed(rest)
  }

  // ---------------------------------------------------------------- what is found

  /** The name itself, or the name with a unit address. */
  predicate Matches(name: seq<byte>, seg: seq<byte>) {
    |name| >= |seg| && name[..|seg|] == seg && (|name| == |seg| || name[|seg|] == AT)
  }

  datatype Found = Found(name: seq<byte>, body: Body)

  /** The first-match descent: at each level the first child that matches, never another. */
  function Lookup(b: Body, segs: seq<seq<byte>>): Option<Found>
    requires segs != []
    decreases b
  {
    match b
    case End => None
    case Nop(rest) => Lookup(rest, segs)
    case Prop(_, _, rest) => Lookup(rest, segs)
    case Sub(name, body, rest) =>
      if Matches(name, segs[0]) then (if |segs| == 1 then Some(Found(name, body)) else Lookup(body, segs[1..]))
      else Lookup(rest, segs)
  }

  /** A name matches a segment exactly when it is the segment, or the segment, an at sign and a unit
      address. */
  lemma MatchesIff(name: seq<byte>, seg: seq<byte>)
    ensures Matches(name, seg) <==> name == seg || exists unit :: name == seg + [AT] + unit
  {
    if |name| > |seg| && Matches(name, seg) {
      assert name == seg + [AT] + name[|seg| + 1..];
    }
  }

  /** The child nodes of a node, in order. */
  function Children(b: Body): seq<Found>
    decreases b
  {
    match b
    case End => []
    case Nop(rest) => Children(rest)
    case Prop(_, _, rest) => Children(rest)
    case Sub(name, body, rest) => [Found(name, body)] + Children(rest)
  }

  /** Child i matches the segment, and none before it does. */
  ghost predicate FirstChild(l: seq<Found>, i: nat, seg: seq<byte>) {
    i < |l| && Matches(l[i].name, seg) && forall j :: 0 <= j < i ==> !Matches(l[j].name, seg)
  }

  lemma FirstOfMore(c: Found, r: seq<Found>, seg: seq<byte>)
    ensures Matches(c.name, seg) ==> forall i: nat :: FirstChild([c] + r, i, seg) ==> i == 0
    ensures !Matches(c.name, seg) ==> forall i: nat :: FirstChild([c] + r, i, seg) ==> i > 0 && FirstChild(r, i - 1, seg)
  {
    hide Matches;
    var l := [c] + r;
    assert l[0] == c && forall i :: 0 <= i < |r| ==> l[i + 1] == r[i];
    forall i: nat | FirstChild(l, i, seg) && !Matches(c.name, seg) ensures i > 0 && FirstChild(r, i - 1, seg) {
      assert r[i - 1] == l[i];
      forall j | 0 <= j < i - 1 ensures !Matches(r[j].name, seg) { assert !Matches(l[j + 1].name, seg); }
    }
    forall i: nat | FirstChild(l, i, seg) ensures i > 0 ==> !Matches(l[0].name, seg) {
    }
  }

  /** The descent takes the first child that matches the first segment and goes on from there with the
      others; it finds nothing if no child matches. */
  lemma {:induction false} LookupIs(b: Body, segs: seq<seq<byte>>)
    requires segs != []
    ensures Lookup(b, segs).Some? ==> exists i: nat :: FirstChild(Children(b), i, segs[0])
    ensures forall i: nat :: FirstChild(Children(b), i, segs[0]) ==>
              Lookup(b, segs) == if |segs| == 1 then Some(Children(b)[i]) else Lookup(Children(b)[i].body, segs[1..])
    decreases b
  {
    hide Matches;
    if b.Nop? || b.Prop? {
      LookupIs(b.rest, segs);
      assert Children(b) == Children(b.rest) && Lookup(b, segs) == Lookup(b.rest, segs);
    } else if b.Sub? {
      var c := Found(b.name, b.body);
      FirstOfMore(c, Children(b.rest), segs[0]);
      assert Children(b) == [c] + Children(b.rest);
      if Matches(b.name, segs[0]) {
        assert FirstChild(Children(b), 0, segs[0]);
      } else {
        LookupIs(b.rest, segs);
        if i: nat :| FirstChild(Children(b.rest), i, segs[0]) { FirstBehind(c, Children(b.rest), i, segs[0]); }
      }
    }
  }

  lemma FirstBehind(c: Found, r: seq<Found>, i: nat, seg: seq<byte>)
    requires FirstChild(r, i, seg) && !Matches(c.name, seg)
    ensures FirstChild([c] + r, i + 1, seg)
  {
    hide Matches;
  }

  /** The same descent, yielding the offset of the node when the body starts at off; -1 if none. */
  function Offset(b: Body, off: nat, segs: seq<seq<byte>>): (r: int)
    requires segs != []
    ensures r >= -1
    decreases b
  {
    match b
    case End => -1
    case Nop(rest) => Offset(rest, off + 4, segs)
    case Prop(_, v, rest) => Offset(rest, off + 12 + Align4(|v|), segs)
    case Sub(name, body, rest) =>
      if Matches(name, segs[0]) then
        if |segs| == 1 then off else Offset(body, off + 4 + Align4(|name| + 1), segs[1..])
      else Offset(rest, off + 4 + Align4(|name| + 1) + |Print(body)|, segs)
  }

  lemma AtName(m: seq<byte>, p: nat, name: seq<byte>)
    requires At(m, p, Name(name)) && 0 !in name
    ensures Terminated(m, p) && Text(m, p) == name && p + Align4(|name| + 1) <= |m|
  {
    assert Name(name)[..|name|] == name;
    assert m[p..p + |name|] == m[p..p + |Name(name)|][..|name|];
    assert m[p + |name|] == m[p..p + |Name(name)|][|name|];
    TextIs(m, p, name);
  }

  lemma AtWord(m: seq<byte>, p: nat, n: nat)
    requires At(m, p, Word(n)) && n < 0x1_0000_0000
    ensures p + 4 <= |m| && ReadWord(m, p) == n
  {
    ReadOfWord(m, p, n);
  }

  /** Where the parts of an item lie. */
  lemma AtHead(m: seq<byte>, p: nat, b: Body)
    requires At(m, p, Head(b)) && WellFormed(b)
    ensures p + 4 <= |m|
    ensures ReadWord(m, p) == match b
                              case End => FDT_END_NODE
                              case Nop(_) => FDT_NOP
                              case Prop(_, _, _) => FDT_PROP
                              case Sub(_, _, _) => FDT_BEGIN_NODE
    ensures b.Sub? ==> Terminated(m, p + 4) && Text(m, p + 4) == b.name
    ensures b.Prop? ==> p + 12 <= |m| && ReadWord(m, p + 4) == |b.value| && ReadWord(m, p + 8) == b.nameoff
                        && At(m, p + 12, b.value)
  {
    hide At, Word, Name, Value, ReadWord, Text, Terminated, Align4;
    match b
    case End => AtWord(m, p, FDT_END_NODE);
    case Nop(_) => AtWord(m, p, FDT_NOP);
    case Sub(name, _, _) =>
      AtParts(m, p, Word(FDT_BEGIN_NODE), Name(name));
      AtWord(m, p, FDT_BEGIN_NODE);
      AtName(m, p + 4, name);
    case Prop(o, v, _) =>
      AtParts(m, p, Word(FDT_PROP), Word(|v|) + (Word(o) + Value(v)));
      AtParts(m, p + 4, Word(|v|), Word(o) + Value(v));
      AtParts(m, p + 8, Word(o), Value(v));
      AtValue(m, p + 12, v);
      AtWord(m, p, FDT_PROP);
      AtWord(m, p + 4, |v|);
      AtWord(m, p + 8, o);
  }

  lemma AtValue(m: seq<byte>, p: nat, v: seq<byte>)
    requires At(m, p, Value(v))
    ensures At(m, p, v)
  {
    AtParts(m, p, v, Blank(Align4(|v|) - |v|));
  }

  // ---------------------------------------------------------------- skip_node

  /** What is left to read of the open nodes, innermost first. */
  function PrintAll(open: seq<Body>): seq<byte> {
    if open == [] then [] else Print(open[0]) + PrintAll(open[1..])
  }

  predicate AllWellFormed(open: seq<Body>) {
    forall i :: 0 <= i < |open| ==> WellFormed(open[i])
  }

  /** What an item contains or is followed by. */
  function Next(b: Body): seq<Body> {
    match b
    case End => []
    case Nop(rest) => [rest]
    case Prop(_, _, rest) => [rest]
    case Sub(_, body, rest) => [body, rest]
  }

  lemma {:induction false} PrintAllConcat(a: seq<Body>, b: seq<Body>)
    ensures PrintAll(a + b) == PrintAll(a) + PrintAll(b)
    decreases |a|
  {
    hide Print;
    if a == [] {
      assert a + b == b;
    } else {
      PrintAllConcat(a[1..], b);
      assert (a + b)[1..] == a[1..] + b;
      assert PrintAll(a + b) == Print(a[0]) + (PrintAll(a[1..]) + PrintAll(b));
    }
  }

  lemma HeadAndNext(b: Body)
    ensures Print(b) == Head(b) + PrintAll(Next(b))
  {
    hide Head;
    match b
    case End => assert PrintAll([]) == [];
    case Nop(rest) => PrintOne(rest);
    case Prop(_, _, rest) => PrintOne(rest);
    case Sub(_, body, rest) =>
      PrintOne(body);
      PrintOne(rest);
      PrintAllConcat([body], [rest]);
      assert [body] + [rest] == [body, rest];
  }

  lemma PrintOne(b: Body)
    ensures PrintAll([b]) == Print(b)
  {
    assert PrintAll([b]) == Print(b) + PrintAll([]);
  }

  lemma NextWellFormed(b: Body)
    requires WellFormed(b)
    ensures AllWellFormed(Next(b))
  {
  }

  /** What is printed from the innermost open node on is its head and all the rest. */
  lemma AdvancePrinted(open: seq<Body>)
    requires open != []
    ensures PrintAll(open) == Head(open[0]) + PrintAll(Next(open[0]) + open[1..])
  {
    hide Head, Print, Next;
    HeadAndNext(open[0]);
    PrintAllConcat(Next(open[0]), open[1..]);
    Regroup(Head(open[0]), PrintAll(Next(open[0])), PrintAll(open[1..]));
  }

  lemma Regroup(a: seq<byte>, b: seq<byte>, c: seq<byte>)
    ensures (a + b) + c == a + (b + c)
  {
  }

  lemma AdvanceWellFormed(open: seq<Body>)
    requires open != [] && AllWellFormed(open)
    ensures AllWellFormed(Next(open[0]) + open[1..])
  {
    hide WellFormed, Next;
    NextWellFormed(open[0]);
  }

  /** Past the head of the innermost open node: its contents and successors are open instead. */
  lemma Advance(m: seq<byte>, p: nat, open: seq<Body>)
    requires open != [] && AllWellFormed(open) && At(m, p, PrintAll(open))
    ensures At(m, p, Head(open[0]))
    ensures var open' := Next(open[0]) + open[1..];
            AllWellFormed(open') && At(m, p + |Head(open[0])|, PrintAll(open'))
            && |PrintAll(open)| == |Head(open[0])| + |PrintAll(open')|
  {
    hide At, Head, Print, PrintAll, WellFormed, AllWellFormed, Next;
    AdvancePrinted(open);
    AdvanceWellFormed(open);
    AtParts(m, p, Head(open[0]), PrintAll(Next(open[0]) + open[1..]));
  }

  lemma PlusWord(p: nat)
    requires Multiple4(p)
    ensures Multiple4(p + 4) && Multiple4(p + 8)
  {
  }

  /** Over a node's name and its padding. */
  method PastName(m: seq<byte>, p: nat) returns (q: nat)
    requires Multiple4(p) && Terminated(m, p)
    ensures q == p + Align4(|Text(m, p)| + 1) && Multiple4(q)
  {
    hide Text, Terminated, Multiple4;
    var len := Strlen(m, p);
    AlignedSum(p, len + 1);
    q := Align4(p + len + 1);
  }

  /** Over a property's length, name offset, value and padding. */
  method PastValue(m: seq<byte>, p: nat) returns (q: nat)
    requires Multiple4(p) && p + 4 <= |m|
    ensures q == p + 8 + Align4(ReadWord(m, p)) && Multiple4(q)
  {
    hide ReadWord, Multiple4;
    var len := ReadWord(m, p);
    PlusWord(p);
    AlignedSum(p + 8, len);
    q := Align4(p + 8 + len);
  }

  /** skip_node from inside a node lands just past its end token, at whatever depth the nodes
      below it nest. */
  method SkipNode(m: seq<byte>, start: nat, ghost b: Body) returns (p: nat)
    requires Multiple4(start) && At(m, start, Print(b)) && WellFormed(b)
    ensures p == start + |Print(b)|
  {
    hide Print, PrintAll, At, WellFormed, Text, Terminated, Align4, ReadWord, Multiple4;
    p := start;
    var level := 1;
    ghost var open := [b];
    PrintOne(b);
    while level > 0
      invariant Multiple4(p) && level == |open| && AllWellFormed(open) && At(m, p, PrintAll(open))
      invariant p + |PrintAll(open)| == start + |Print(b)|
      decreases start + |Print(b)| - p
    {
      Advance(m, p, open);
      AtHead(m, p, open[0]);
      PlusWord(p);
      var tag := ReadWord(m, p);
      p := p + 4;
      if tag == FDT_BEGIN_NODE {
        p := PastName(m, p);
        level := level + 1;
      } else if tag == FDT_END_NODE {
        level := level - 1;
      } else if tag == FDT_PROP {
        p := PastValue(m, p);
      }
      open := Next(open[0]) + open[1..];
    }
    assert open == [];
    assert PrintAll([]) == [] by { NoneOpen(); }
  }

  lemma NoneOpen()
    ensures PrintAll([]) == []
  {
  }

  lemma AlignedSum(p: nat, n: nat)
    requires Multiple4(p)
    ensures Align4(p + n) == p + Align4(n)
  {
  }

  // ---------------------------------------------------------------- blobs

  /** A device tree blob with the given root: magic number, offsets, structure block. */
  predicate IsBlob(m: seq<byte>, root: seq<byte>, b: Body) {
    && |m| >= 40 && ReadWord(m, 0) == FDT_MAGIC && Multiple4(ReadWord(m, 8))
    && 0 !in root && WellFormed(b) && At(m, ReadWord(m, 8), PrintStruct(root, b))
  }

  /** A blob: the header of ten words, the structure block, the strings block. */
  function PrintBlob(root: seq<byte>, b: Body, strings: seq<byte>): seq<byte> {
    var struct := PrintStruct(root, b);
    Word(FDT_MAGIC) + Word(40 + |struct| + |strings|) + Word(40) + Word(40 + |struct|) + Word(40)
    + Word(17) + Word(16) + Word(0) + Word(|strings|) + Word(|struct|) + struct + strings
  }

  lemma PrintedIsBlob(root: seq<byte>, b: Body, strings: seq<byte>)
    requires 0 !in root && WellFormed(b) && 40 + |PrintStruct(root, b)| < 0x1_0000_0000
    ensures var m := PrintBlob(root, b, strings);
            IsBlob(m, root, b) && ReadWord(m, 12) == 40 + |PrintStruct(root, b)| && At(m, ReadWord(m, 12), strings)
  {
    hide Word, PrintStruct, ReadWord, WellFormed;
    var m := PrintBlob(root, b, strings);
    assert m[0..4] == Word(FDT_MAGIC);
    assert m[8..12] == Word(40);
    assert m[12..16] == Word(40 + |PrintStruct(root, b)|);
    assert m[40..40 + |PrintStruct(root, b)|] == PrintStruct(root, b);
    ReadOfWord(m, 0, FDT_MAGIC);
    ReadOfWord(m, 8, 40);
    ReadOfWord(m, 12, 40 + |PrintStruct(root, b)|);
  }

  lemma StructParts(m: seq<byte>, p: nat, root: seq<byte>, b: Body)
    requires At(m, p, PrintStruct(root, b)) && 0 !in root
    ensures p + 4 <= |m| && ReadWord(m, p) == FDT_BEGIN_NODE
    ensures Terminated(m, p + 4) && Text(m, p + 4) == root && At(m, p + 4 + Align4(|root| + 1), Print(b))
  {
    hide At, Print, Word, Name, ReadWord, Text, Terminated, Align4;
    var tail := Print(b) + Word(FDT_END);
    assert PrintStruct(root, b) == Word(FDT_BEGIN_NODE) + (Name(root) + tail);
    AtParts(m, p, Word(FDT_BEGIN_NODE), Name(root) + tail);
    AtParts(m, p + 4, Name(root), tail);
    AtParts(m, p + 4 + |Name(root)|, Print(b), Word(FDT_END));
    AtWord(m, p, FDT_BEGIN_NODE);
    AtName(m, p + 4, root);
  }

  lemma PrintIs(b: Body)
    ensures b.Nop? || b.Prop? ==> Print(b) == Head(b) + Print(b.rest)
    ensures b.Sub? ==> Print(b) == Head(b) + (Print(b.body) + Print(b.rest))
    ensures b.End? ==> Print(b) == Head(b)
  {
    hide Head;
    if b.Sub? { Regroup(Head(b), Print(b.body), Print(b.rest)); }
  }

  lemma BodyParts(m: seq<byte>, p: nat, b: Body)
    requires At(m, p, Print(b))
    ensures At(m, p, Head(b))
    ensures b.Nop? || b.Prop? ==> At(m, p + |Head(b)|, Print(b.rest))
    ensures b.Sub? ==> At(m, p + |Head(b)|, Print(b.body)) && At(m, p + |Head(b)| + |Print(b.body)|, Print(b.rest))
  {
    hide At, Head, Multiple4, Print;
    PrintIs(b);
    match b
    case End =>
    case Nop(rest) => AtParts(m, p, Head(b), Print(rest));
    case Prop(_, _, rest) => AtParts(m, p, Head(b), Print(rest));
    case Sub(_, body, rest) =>
      AtParts(m, p, Head(b), Print(body) + Print(rest));
      AtParts(m, p + |Head(b)|, Print(body), Print(rest));
  }

  /** What a reader at an item finds: its tag, its parts, and where the next items lie. */
  lemma Item(m: seq<byte>, p: nat, b: Body)
    requires At(m, p, Print(b)) && WellFormed(b) && Multiple4(p)
    ensures p + 4 <= |m| && Multiple4(p + 4) && ReadWord(m, p) == TagOf(b)
    ensures b.Nop? ==> WellFormed(b.rest) && At(m, p + 4, Print(b.rest))
    ensures b.Prop? ==> p + 12 <= |m| && ReadWord(m, p + 4) == |b.value| && ReadWord(m, p + 8) == b.nameoff
                        && At(m, p + 12, b.value) && WellFormed(b.rest) && At(m, p + 12 + Align4(|b.value|), Print(b.rest))
    ensures b.Sub? ==> Terminated(m, p + 4) && Text(m, p + 4) == b.name && WellFormed(b.body) && WellFormed(b.rest)
                       && At(m, p + 4 + Align4(|b.name| + 1), Print(b.body))
                       && At(m, p + 4 + Align4(|b.name| + 1) + |Print(b.body)|, Print(b.rest))
  {
    hide At, Print, ReadWord, Text, Terminated, Align4, Multiple4;
    BodyParts(m, p, b);
    AtHead(m, p, b);
    PlusWord(p);
  }

  function TagOf(b: Body): nat {
    match b
    case End => FDT_END_NODE
    case Nop(_) => FDT_NOP
    case Prop(_, _, _) => FDT_PROP
    case Sub(_, _, _) => FDT_BEGIN_NODE
  }

  // ---------------------------------------------------------------- fdt_path_offset

  /** The components of a path without its leading slash.  A slash at the very end does not
      start another component. */
  function Segments(t: seq<byte>): (r: seq<seq<byte>>)
    requires t != []
    ensures r != []
    decreases |t|
  {
    var k := IndexOf(t, SLASH);
    if k + 1 >= |t| then [t[..k]] else [t[..k]] + Segments(t[k + 1..])
  }

  /** Segments with slashes between them. */
  function Joined(l: seq<seq<byte>>): (t: seq<byte>)
    requires l != []
    ensures l[|l| - 1] != [] ==> t != []
    decreases |l|
  {
    if |l| == 1 then l[0] else l[0] + [SLASH] + Joined(l[1..])
  }

  lemma {:induction false} FirstSlashAt(a: seq<byte>, r: seq<byte>)
    requires SLASH !in a
    ensures IndexOf(a, SLASH) == |a| && IndexOf(a + [SLASH] + r, SLASH) == |a|
    decreases |a|
  {
    if a != [] {
      assert (a + [SLASH] + r)[1..] == a[1..] + [SLASH] + r;
      FirstSlashAt(a[1..], r);
    }
  }

  /** One segment, a slash, and the rest. */
  lemma SegmentsCons(a: seq<byte>, r: seq<byte>)
    requires SLASH !in a && r != []
    ensures Segments(a + [SLASH] + r) == [a] + Segments(r)
  {
    hide IndexOf;
    FirstSlashAt(a, r);
    var t := a + [SLASH] + r;
    assert t[..|a|] == a && t[|a| + 1..] == r;
  }

  lemma SegmentsLast(a: seq<byte>)
    requires SLASH !in a && a != []
    ensures Segments(a) == [a] && Segments(a + [SLASH]) == [a]
  {
    hide IndexOf;
    FirstSlashAt(a, []);
    assert a[..|a|] == a && a + [SLASH] + [] == a + [SLASH] && (a + [SLASH])[..|a|] == a;
  }

  /** A path is cut at its slashes; one more slash at its end does not matter. */
  lemma {:induction false} SegmentsOfJoined(l: seq<seq<byte>>)
    requires l != [] && l[|l| - 1] != [] && forall i :: 0 <= i < |l| ==> SLASH !in l[i]
    ensures Segments(Joined(l)) == l && Segments(Joined(l) + [SLASH]) == l
    decreases |l|
  {
    hide IndexOf, Segments;
    if |l| == 1 {
      SegmentsLast(l[0]);
    } else {
      var r := Joined(l[1..]);
      SegmentsOfJoined(l[1..]);
      SegmentsCons(l[0], r);
      SegmentsCons(l[0], r + [SLASH]);
      assert l[0] + [SLASH] + r + [SLASH] == l[0] + [SLASH] + (r + [SLASH]);
      assert [l[0]] + l[1..] == l;
    }
  }

  /** What the code compares: the first seg_len characters, then the character behind them. */
  lemma MatchBytes(m: seq<byte>, s: nat, t: seq<byte>, k: nat)
    requires Terminated(m, s) && k <= |t|
    ensures Take(Text(m, s), k) == Take(t, k) ==> s + k < |m|
    ensures Matches(Text(m, s), t[..k]) <==> Take(Text(m, s), k) == Take(t, k) && (m[s + k] == 0 || m[s + k] == AT)
  {
    TextEnds(m, s);
    var name := Text(m, s);
    if Take(name, k) == Take(t, k) {
      assert |Take(t, k)| == k;
      if k < |name| { assert name[k] == m[s + k]; }
    }
  }

  lemma SegmentsStep(t: seq<byte>)
    requires t != []
    ensures var k := IndexOf(t, SLASH);
            Segments(t)[0] == t[..k] && (|Segments(t)| == 1 <==> k + 1 >= |t|)
            && (k + 1 < |t| ==> Segments(t)[1..] == Segments(t[k + 1..]))
  {
  }

  /** What fdt_path_offset returns on a blob. */
  function PathOffsetOf(root: seq<byte>, b: Body, path: seq<byte>): int {
    if path == [] || path[0] != SLASH then -1
    else if |path| == 1 then 0
    else Offset(b, 4 + Align4(|root| + 1), Segments(path[1..]))
  }

  /** fdt_path_offset on any printed tree is the first-match descent by name or name@unit. */
  method PathOffset(m: seq<byte>, path: seq<byte>, ghost root: seq<byte>, ghost b: Body) returns (r: int)
    requires |m| >= 40 && (ReadWord(m, 0) == FDT_MAGIC ==> IsBlob(m, root, b)) && Terminated(path, 0)
    ensures r == if ReadWord(m, 0) == FDT_MAGIC then PathOffsetOf(root, b, Text(path, 0)) else -1
  {
    hide Text, Terminated, Print, PrintStruct, Offset, Segments, Align4, ReadWord, WellFormed, IndexOf, Matches;
    if ReadWord(m, 0) != FDT_MAGIC { return -1; }
    var base := ReadWord(m, 8);
    var p := base;
    PathStart(path);
    if path[0] != SLASH { return -1; }
    if path[1] == 0 { return 0; }
    StructParts(m, p, root, b);
    if ReadWord(m, p) == FDT_BEGIN_NODE {
      PlusWord(p);
      p := PastName(m, p + 4);
    }
    r := Descend(m, base, p, path, 1, b);
  }

  lemma PathStart(path: seq<byte>)
    requires Terminated(path, 0)
    ensures |path| > 0 && (path[0] == SLASH <==> Text(path, 0) != [] && Text(path, 0)[0] == SLASH)
    ensures path[0] == SLASH ==> |path| > 1 && Terminated(path, 1) && Text(path, 1) == Text(path, 0)[1..]
                                 && (path[1] == 0 <==> |Text(path, 0)| == 1)
  {
    TextStep(path, 0);
    if path[0] == SLASH {
      TextStep(path, 1);
    }
  }

  /** The scanning loop, from inside the root node. */
  method Descend(m: seq<byte>, base: nat, start: nat, path: seq<byte>, first: nat, ghost b: Body) returns (r: int)
    requires base <= start && Multiple4(start) && At(m, start, Print(b)) && WellFormed(b)
    requires Terminated(path, first) && Text(path, first) != []
    ensures r == Offset(b, start - base, Segments(Text(path, first)))
  {
    hide Text, Terminated, Print, At, Offset, Segments, Align4, ReadWord, WellFormed, Matches, Multiple4, Word, Name, Value;
    var p, curSeg := start, first;
    ghost var cur := b;
    while true
      invariant base <= p && Multiple4(p) && At(m, p, Print(cur)) && WellFormed(cur)
      invariant Terminated(path, curSeg) && Text(path, curSeg) != []
      invariant Offset(cur, p - base, Segments(Text(path, curSeg))) == Offset(b, start - base, Segments(Text(path, first)))
      decreases cur
    {
      Item(m, p, cur);
      OffsetParts(cur, p - base, Segments(Text(path, curSeg)));
      var tag := ReadWord(m, p);
      var tagAddr := p;
      p := p + 4;
      if tag == FDT_BEGIN_NODE {
        var nodeName := p;
        p := PastName(m, nodeName);
        var found, slash, more := MatchSegment(m, nodeName, path, curSeg);
        if found {
          if !more { return tagAddr - base; }
          curSeg := slash + 1;
          cur := cur.body;
        } else {
          Multiples(p, |Print(cur.body)|) by { PrintAligned(cur.body); }
          p := SkipNode(m, p, cur.body);
          cur := cur.rest;
        }
      } else if tag == FDT_PROP {
        p := PastValue(m, p);
        cur := cur.rest;
      } else if tag == FDT_NOP {
        cur := cur.rest;
      } else {
        return -1;
      }
    }
  }

  /** Whether a node's name matches the current segment, and whether another segment follows. */
  method MatchSegment(m: seq<byte>, nodeName: nat, path: seq<byte>, curSeg: nat) returns (found: bool, slash: nat, more: bool)
    requires Terminated(m, nodeName) && Terminated(path, curSeg) && Text(path, curSeg) != []
    ensures found <==> Matches(Text(m, nodeName), Segments(Text(path, curSeg))[0])
    ensures more <==> |Segments(Text(path, curSeg))| > 1
    ensures more ==> Terminated(path, slash + 1) && Text(path, slash + 1) != []
                     && Segments(Text(path, slash + 1)) == Segments(Text(path, curSeg))[1..]
  {
    hide Text, Terminated, Segments, IndexOf, Matches, Take;
    ghost var t := Text(path, curSeg);
    ghost var k := IndexOf(t, SLASH);
    slash := Strchr(path, curSeg, SLASH);
    TextEnds(path, curSeg);
    var segLen;
    if slash < |path| { segLen := slash - curSeg; } else { segLen := Strlen(path, curSeg); }
    var same := PrefixesEqual(m, nodeName, path, curSeg, segLen);
    MatchBytes(m, nodeName, t, k);
    SegmentsStep(t);
    found := same && (m[nodeName + segLen] == 0 || m[nodeName + segLen] == AT);
    more := false;
    if slash < |path| {
      TextDrop(path, curSeg, k + 1);
      TextStep(path, slash + 1);
      TextEnds(path, slash + 1);
      more := path[slash + 1] != 0;
    }
  }

  lemma PartsWellFormed(b: Body)
    requires WellFormed(b)
    ensures b.Nop? || b.Prop? ==> WellFormed(b.rest)
    ensures b.Sub? ==> WellFormed(b.body) && WellFormed(b.rest)
  {
  }

  lemma OffsetStep(b: Body, off: nat, segs: seq<seq<byte>>)
    requires segs != []
    ensures b.End? ==> Offset(b, off, segs) == -1
    ensures b.Nop? || b.Prop? ==> Offset(b, off, segs) == Offset(b.rest, off + |Head(b)|, segs)
    ensures b.Sub? ==> Offset(b, off, segs) ==
                       if !Matches(b.name, segs[0]) then Offset(b.rest, off + |Head(b)| + |Print(b.body)|, segs)
                       else if |segs| == 1 then off
                       else Offset(b.body, off + |Head(b)|, segs[1..])
  {
    hide Print, Matches;
  }

  lemma OffsetParts(b: Body, off: nat, segs: seq<seq<byte>>)
    requires segs != []
    ensures b.End? ==> Offset(b, off, segs) == -1
    ensures b.Nop? ==> Offset(b, off, segs) == Offset(b.rest, off + 4, segs)
    ensures b.Prop? ==> Offset(b, off, segs) == Offset(b.rest, off + 12 + Align4(|b.value|), segs)
    ensures b.Sub? && !Matches(b.name, segs[0]) ==>
              Offset(b, off, segs) == Offset(b.rest, off + 4 + Align4(|b.name| + 1) + |Print(b.body)|, segs)
    ensures b.Sub? && Matches(b.name, segs[0]) ==>
              Offset(b, off, segs) == if |segs| == 1 then off else Offset(b.body, off + 4 + Align4(|b.name| + 1), segs[1..])
  {
    hide Print, Matches, Align4;
  }

  /** The offset found is that of the node the descent finds: its begin token and name lie there,
      aligned, followed by its body; and nothing is found exactly when the descent finds nothing. */
  lemma {:induction false} OffsetFindsNode(m: seq<byte>, base: nat, p: nat, b: Body, segs: seq<seq<byte>>)
    requires base <= p && At(m, p, Print(b)) && WellFormed(b) && segs != [] && Multiple4(p)
    ensures Placed(m, base, p - base, Offset(b, p - base, segs), Lookup(b, segs))
    decreases b
  {
    hide At, Print, Word, Name, Matches, Align4, Multiple4, Head, Placed;
    BodyParts(m, p, b);
    OffsetStep(b, p - base, segs);
    PartsWellFormed(b);
    HeadAligned(p, b);
    match b
    case End => NotPlaced(m, base, p - base);
    case Nop(rest) =>
      OffsetFindsNode(m, base, p + |Head(b)|, rest, segs);
      PlacedLater(m, base, p - base, p + |Head(b)| - base, Offset(b, p - base, segs), Lookup(b, segs));
    case Prop(_, _, rest) =>
      OffsetFindsNode(m, base, p + |Head(b)|, rest, segs);
      PlacedLater(m, base, p - base, p + |Head(b)| - base, Offset(b, p - base, segs), Lookup(b, segs));
    case Sub(name, body, rest) =>
      if !Matches(name, segs[0]) {
        OffsetFindsNode(m, base, p + |Head(b)| + |Print(body)|, rest, segs);
        PlacedLater(m, base, p - base, p + |Head(b)| + |Print(body)| - base, Offset(b, p - base, segs), Lookup(b, segs));
      } else if |segs| == 1 {
        PlacedHere(m, base, p, b);
      } else {
        OffsetFindsNode(m, base, p + |Head(b)|, body, segs[1..]);
        PlacedLater(m, base, p - base, p + |Head(b)| - base, Offset(b, p - base, segs), Lookup(b, segs));
      }
  }

  /** An offset not before `from` is where the node found is printed, or -1 if none is found. */
  ghost predicate Placed(m: seq<byte>, base: nat, from: int, r: int, n: Option<Found>) {
    match n
    case None => r == -1
    case Some(n) => r >= from >= 0 && Multiple4(base + r) && WellFormed(n.body) && 0 !in n.name
                    && At(m, base + r, Word(FDT_BEGIN_NODE) + Name(n.name) + Print(n.body))
  }

  lemma NotPlaced(m: seq<byte>, base: nat, from: int)
    ensures Placed(m, base, from, -1, None)
  {
  }

  lemma PlacedLater(m: seq<byte>, base: nat, from: int, from': int, r: int, n: Option<Found>)
    requires Placed(m, base, from', r, n) && 0 <= from <= from'
    ensures Placed(m, base, from, r, n)
  {
    hide At, Print, Word, Name, Multiple4, WellFormed;
  }

  lemma PlacedHere(m: seq<byte>, base: nat, p: nat, b: Body)
    requires base <= p && Multiple4(p) && b.Sub? && WellFormed(b)
    requires At(m, p, Head(b)) && At(m, p + |Head(b)|, Print(b.body))
    ensures Placed(m, base, p - base, p - base, Some(Found(b.name, b.body)))
  {
    hide At, Print, Word, Name, Align4;
    NodeAt(m, p, b.name, b.body);
  }

  /** Behind an item's head, and behind a node nested in it, the next item is aligned. */
  lemma HeadAligned(p: nat, b: Body)
    requires Multiple4(p)
    ensures Multiple4(p + |Head(b)|)
    ensures b.Sub? ==> Multiple4(p + |Head(b)| + |Print(b.body)|)
  {
    hide Print, Align4;
    var h := |Head(b)|;
    hide Head;
    Multiples(p, h);
    if b.Sub? {
      PrintAligned(b.body);
      Multiples(p + h, |Print(b.body)|);
    }
  }

  lemma NodeAt(m: seq<byte>, p: nat, name: seq<byte>, body: Body)
    requires At(m, p, Word(FDT_BEGIN_NODE) + Name(name)) && At(m, p + 4 + |Name(name)|, Print(body))
    ensures At(m, p, Word(FDT_BEGIN_NODE) + Name(name) + Print(body))
  {
    hide Word, Name, Print;
    var h := Word(FDT_BEGIN_NODE) + Name(name);
    assert m[p..p + |h + Print(body)|] == m[p..p + |h|] + m[p + |h|..p + |h| + |Print(body)|];
  }

  // ---------------------------------------------------------------- fdt_getprop

  datatype Property = Property(nameoff: nat, value: seq<byte>)

  /** The properties of a node: those before its first child node, in order, whatever their names. */
  function Props(b: Body): seq<Property>
    decreases b
  {
    match b
    case End => []
    case Nop(rest) => Props(rest)
    case Prop(o, v, rest) => [Property(o, v)] + Props(rest)
    case Sub(_, _, _) => []
  }

  predicate Bears(m: seq<byte>, strings: nat, p: Property, name: seq<byte>) { Text(m, strings + p.nameoff) == name }

  /** Property i of the list has the name, the whole of it, and none before it does. */
  ghost predicate FirstBearing(m: seq<byte>, strings: nat, l: seq<Property>, i: nat, name: seq<byte>) {
    i < |l| && Bears(m, strings, l[i], name) && forall j :: 0 <= j < i ==> !Bears(m, strings, l[j], name)
  }

  /** Something is found exactly when some property has the name, and then it is the value of the
      first that does. */
  ghost predicate FoundFirst(m: seq<byte>, strings: nat, l: seq<Property>, name: seq<byte>, found: bool, value: nat, len: nat) {
    && (found <==> exists i :: 0 <= i < |l| && Bears(m, strings, l[i], name))
    && (found ==> exists i: nat :: FirstBearing(m, strings, l, i, name) && At(m, value, l[i].value) && len == |l[i].value|)
  }

  ghost predicate NoneBears(m: seq<byte>, strings: nat, l: seq<Property>, name: seq<byte>) {
    forall i :: 0 <= i < |l| ==> !Bears(m, strings, l[i], name)
  }

  lemma FoundHere(m: seq<byte>, strings: nat, done: seq<Property>, p: Property, rest: seq<Property>, name: seq<byte>, value: nat)
    requires NoneBears(m, strings, done, name) && Bears(m, strings, p, name) && At(m, value, p.value)
    ensures FoundFirst(m, strings, done + ([p] + rest), name, true, value, |p.value|)
  {
    hide Bears, At;
    var l := done + ([p] + rest);
    assert l[|done|] == p;
    assert FirstBearing(m, strings, l, |done|, name);
  }

  lemma OneMoreDone(m: seq<byte>, strings: nat, done: seq<Property>, p: Property, rest: seq<Property>, name: seq<byte>)
    requires NoneBears(m, strings, done, name) && !Bears(m, strings, p, name)
    ensures NoneBears(m, strings, done + [p], name) && done + ([p] + rest) == (done + [p]) + rest
  {
  }

  lemma NothingDone(m: seq<byte>, strings: nat, name: seq<byte>)
    ensures NoneBears(m, strings, [], name)
  {
  }

  lemma NothingFound(m: seq<byte>, strings: nat, l: seq<Property>, name: seq<byte>)
    requires NoneBears(m, strings, l, name)
    ensures FoundFirst(m, strings, l, name, false, 0, 0)
  {
  }

  lemma PropsOf(b: Body)
    ensures b.Nop? ==> Props(b) == Props(b.rest)
    ensures b.Prop? ==> Props(b) == [Property(b.nameoff, b.value)] + Props(b.rest)
    ensures b.End? || b.Sub? ==> Props(b) == []
  {
  }

  /** Every property name is a string of the strings block. */
  ghost predicate NamesOk(b: Body, m: seq<byte>, strings: nat)
    decreases b
  {
    match b
    case End => true
    case Nop(rest) => NamesOk(rest, m, strings)
    case Prop(o, _, rest) => Terminated(m, strings + o) && NamesOk(rest, m, strings)
    case Sub(_, _, rest) => true
  }

  /** fdt_getprop at a printed node: the value of the first property of that name. */
  method GetProp(m: seq<byte>, nodeoffset: nat, name: seq<byte>, ghost nodeName: seq<byte>, ghost b: Body)
    returns (found: bool, value: nat, len: nat)
    requires |m| >= 40 && Multiple4(ReadWord(m, 8) + nodeoffset) && Terminated(name, 0) && 0 !in nodeName
    requires At(m, ReadWord(m, 8) + nodeoffset, Word(FDT_BEGIN_NODE) + Name(nodeName) + Print(b)) && WellFormed(b)
    requires NamesOk(b, m, ReadWord(m, 12))
    ensures FoundFirst(m, ReadWord(m, 12), Props(b), Text(name, 0), found, value, len)
  {
    hide Text, Terminated, Print, At, Align4, ReadWord, WellFormed, Word, Name, Multiple4, Props, NoneBears, FoundFirst;
    var strings := ReadWord(m, 12);
    var p: nat := ReadWord(m, 8) + nodeoffset;
    found, value, len := false, 0, 0;
    NodeParts(m, p, nodeName, b);
    if ReadWord(m, p) != FDT_BEGIN_NODE { return; }
    PlusWord(p);
    p := PastName(m, p + 4);
    ghost var cur, done := b, [];
    assert done + Props(b) == Props(b);
    NothingDone(m, strings, Text(name, 0));
    while true
      invariant Multiple4(p) && At(m, p, Print(cur)) && WellFormed(cur) && NamesOk(cur, m, strings)
      invariant Props(b) == done + Props(cur) && NoneBears(m, strings, done, Text(name, 0))
      decreases cur
    {
      Item(m, p, cur);
      PropsOf(cur);
      var tag := ReadWord(m, p);
      p := p + 4;
      if tag == FDT_PROP {
        len := ReadWord(m, p);
        var nameoff := ReadWord(m, p + 4);
        var same := StringsEqual(m, strings + nameoff, name, 0);
        ghost var prop := Property(cur.nameoff, cur.value);
        if same {
          FoundHere(m, strings, done, prop, Props(cur.rest), Text(name, 0), p + 8);
          return true, p + 8, len;
        }
        OneMoreDone(m, strings, done, prop, Props(cur.rest), Text(name, 0));
        done := done + [prop];
        p := PastValue(m, p);
        cur := cur.rest;
      } else if tag == FDT_NOP {
        cur := cur.rest;
      } else {
        break;
      }
    }
    assert done + [] == done;
    NothingFound(m, strings, done, Text(name, 0));
    return false, 0, 0;
  }

  lemma NodeParts(m: seq<byte>, p: nat, name: seq<byte>, b: Body)
    requires At(m, p, Word(FDT_BEGIN_NODE) + Name(name) + Print(b)) && 0 !in name
    ensures p + 4 <= |m| && ReadWord(m, p) == FDT_BEGIN_NODE
    ensures Terminated(m, p + 4) && Text(m, p + 4) == name && At(m, p + 4 + Align4(|name| + 1), Print(b))
  {
    hide At, Print, Word, Name, ReadWord, Text, Terminated, Align4;
    assert Word(FDT_BEGIN_NODE) + Name(name) + Print(b) == Word(FDT_BEGIN_NODE) + (Name(name) + Print(b));
    AtParts(m, p, Word(FDT_BEGIN_NODE), Name(name) + Print(b));
    AtParts(m, p + 4, Name(name), Print(b));
    AtWord(m, p, FDT_BEGIN_NODE);
    AtName(m, p + 4, name);
  }

  // ---------------------------------------------------------------- a property by path

  /** The node that a path names: the root, or what the descent finds. */
  function NodeOf(root: seq<byte>, b: Body, path: seq<byte>): Option<Found> {
    if path == [] || path[0] != SLASH then None
    else if |path| == 1 then Some(Found(root, b))
    else Lookup(b, Segments(path[1..]))
  }

  /** "/" is the root; the path of slash-separated segments leads to what the descent by them finds;
      a path without a slash in front leads nowhere. */
  lemma NodeOfPath(root: seq<byte>, b: Body, path: seq<byte>, l: seq<seq<byte>>)
    requires l != [] && l[|l| - 1] != [] && forall i :: 0 <= i < |l| ==> SLASH !in l[i]
    ensures NodeOf(root, b, [SLASH]) == Some(Found(root, b)) && PathOffsetOf(root, b, [SLASH]) == 0
    ensures NodeOf(root, b, [SLASH] + Joined(l)) == NodeOf(root, b, [SLASH] + Joined(l) + [SLASH]) == Lookup(b, l)
    ensures path == [] || path[0] != SLASH ==> NodeOf(root, b, path) == None && PathOffsetOf(root, b, path) == -1
  {
    hide Segments, Lookup, Joined;
    SegmentsOfJoined(l);
    assert ([SLASH] + Joined(l))[1..] == Joined(l) && ([SLASH] + Joined(l) + [SLASH])[1..] == Joined(l) + [SLASH];
  }

  /** Every property name anywhere in the tree is a string of the strings block. */
  ghost predicate AllNamesOk(b: Body, m: seq<byte>, strings: nat)
    decreases b
  {
    match b
    case End => true
    case Nop(rest) => AllNamesOk(rest, m, strings)
    case Prop(o, _, rest) => Terminated(m, strings + o) && AllNamesOk(rest, m, strings)
    case Sub(_, body, rest) => AllNamesOk(body, m, strings) && AllNamesOk(rest, m, strings)
  }

  lemma {:induction false} NamesAtTop(b: Body, m: seq<byte>, strings: nat)
    requires AllNamesOk(b, m, strings)
    ensures NamesOk(b, m, strings)
    decreases b
  {
    if b.Nop? || b.Prop? { NamesAtTop(b.rest, m, strings); }
  }

  lemma {:induction false} NamesBelow(b: Body, m: seq<byte>, strings: nat, segs: seq<seq<byte>>)
    requires AllNamesOk(b, m, strings) && segs != [] && Lookup(b, segs).Some?
    ensures AllNamesOk(Lookup(b, segs).value.body, m, strings)
    decreases b
  {
    match b
    case Nop(rest) => NamesBelow(rest, m, strings, segs);
    case Prop(_, _, rest) => NamesBelow(rest, m, strings, segs);
    case Sub(name, body, rest) =>
      if !Matches(name, segs[0]) {
        NamesBelow(rest, m, strings, segs);
      } else if |segs| > 1 {
        NamesBelow(body, m, strings, segs[1..]);
      }
  }

  /** The root node lies at the start of the structure block. */
  lemma RootAt(m: seq<byte>, p: nat, root: seq<byte>, b: Body)
    requires At(m, p, PrintStruct(root, b))
    ensures At(m, p, Word(FDT_BEGIN_NODE) + Name(root) + Print(b))
  {
    hide Word, Name, Print, At;
    AtParts(m, p, Word(FDT_BEGIN_NODE) + Name(root) + Print(b), Word(FDT_END));
  }

  /** The offset returned for a path is where the node of that path is printed. */
  lemma PathFindsNode(m: seq<byte>, root: seq<byte>, b: Body, path: seq<byte>, strings: nat)
    requires IsBlob(m, root, b) && AllNamesOk(b, m, strings)
    ensures Placed(m, ReadWord(m, 8), 0, PathOffsetOf(root, b, path), NodeOf(root, b, path))
    ensures NodeOf(root, b, path).Some? ==> NamesOk(NodeOf(root, b, path).value.body, m, strings)
  {
    hide At, Print, PrintStruct, Word, Name, Align4, ReadWord, WellFormed, Multiple4, NamesOk, AllNamesOk, Segments, Offset, Lookup;
    var base := ReadWord(m, 8);
    if path == [] || path[0] != SLASH {
    } else if |path| == 1 {
      RootAt(m, base, root, b);
      NamesAtTop(b, m, strings);
    } else {
      StructParts(m, base, root, b);
      PlusWord(base);
      NameAligned(base + 4, |root| + 1);
      var start := base + 4 + Align4(|root| + 1);
      OffsetFindsNode(m, base, start, b, Segments(path[1..]));
      PlacedLater(m, base, 0, start - base, PathOffsetOf(root, b, path), NodeOf(root, b, path));
      if Lookup(b, Segments(path[1..])).Some? {
        NamesBelow(b, m, strings, Segments(path[1..]));
        NamesAtTop(Lookup(b, Segments(path[1..])).value.body, m, strings);
      }
    }
  }

  lemma NameAligned(p: nat, n: nat)
    requires Multiple4(p)
    ensures Multiple4(p + Align4(n))
  {
  }

  /** What a reader of the tree does (lab7/src/cpio.c:107-120): fdt_path_offset, and fdt_getprop at
      the offset it returns, deliver the first property of that name in the node of that path. */
  method PropertyAt(m: seq<byte>, path: seq<byte>, name: seq<byte>, ghost root: seq<byte>, ghost b: Body)
    returns (found: bool, value: nat, len: nat)
    requires IsBlob(m, root, b) && AllNamesOk(b, m, ReadWord(m, 12)) && Terminated(path, 0) && Terminated(name, 0)
    ensures var n := NodeOf(root, b, Text(path, 0));
            if n.None? then !found else FoundFirst(m, ReadWord(m, 12), Props(n.value.body), Text(name, 0), found, value, len)
  {
    hide At, Print, PrintStruct, Text, Terminated, Word, Name, ReadWord, WellFormed, Multiple4, NamesOk, AllNamesOk, NodeOf, PathOffsetOf, FoundFirst, Props;
    var offset := PathOffset(m, path, root, b);
    PathFindsNode(m, root, b, Text(path, 0), ReadWord(m, 12));
    if offset < 0 { return false, 0, 0; }
    ghost var n := NodeOf(root, b, Text(path, 0)).value;
    found, value, len := GetProp(m, offset, name, n.name, n.body);
  }
}
