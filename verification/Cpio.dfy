/** The initramfs reader (lab7/src/cpio.c) against a printer of "newc" archives (cpio(5)). */
module Cpio {
  import opened Bytes

  const HEADER := 110
  const WORD32 := 0x1_0000_0000

  const MAGIC: seq<byte> := [48, 55, 48, 55, 48, 49]                      // 070701
  const TRAILER: seq<byte> := [84, 82, 65, 73, 76, 69, 82, 33, 33, 33]    // TRAILER!!!
  const NUL: seq<byte> := [0]

  const RAMFS_MAX_ENTRIES := 16
  const RAMFS_MAX_NAME := 16

  datatype Option<T> = None | Some(value: T)

  // ---------------------------------------------------------------- hexadecimal fields

  /** What hextoi makes of one character: it does not know lower-case digits. */
  function Digit(c: byte): int { if c >= 65 then c as int - 65 + 10 else c as int - 48 }

  /** hextoi, in two's-complement 32-bit arithmetic read back as unsigned. */
  function Hex(s: seq<byte>): (r: nat)
    ensures r < WORD32
  {
    if s == [] then 0 else (Hex(s[..|s| - 1]) * 16 + Digit(s[|s| - 1])) % WORD32
  }

  method HexToInt(m: seq<byte>, p: nat, n: nat) returns (r: nat)
    requires p + n <= |m|
    ensures r == Hex(m[p..p + n])
  {
    r := 0;
    var i := 0;
    while i < n
      invariant 0 <= i <= n && r == Hex(m[p..p + i])
    {
      var c: byte := m[p + i];
      assert m[p..p + i + 1][..i] == m[p..p + i];
      r := (r * 16 + (if c >= 65 then c as int - 65 + 10 else c as int - 48)) % WORD32;
      i := i + 1;
    }
  }

  predicate IsLower(c: byte) { 97 <= c <= 102 }
  predicate IsHexDigit(c: byte) { 48 <= c <= 57 || 65 <= c <= 70 || IsLower(c) }

  /** The value of a hexadecimal digit of either case. */
  function TrueDigit(c: byte): (d: nat)
    requires IsHexDigit(c)
    ensures d < 16
  {
    if c <= 57 then c - 48 else if c <= 70 then c - 55 else c - 87
  }

  function TrueValue(s: seq<byte>): (r: nat)
    requires forall i :: 0 <= i < |s| ==> IsHexDigit(s[i])
  {
    if s == [] then 0 else TrueValue(s[..|s| - 1]) * 16 + TrueDigit(s[|s| - 1])
  }

  /** How far hextoi is off, before wrapping. */
  function Excess(s: seq<byte>): (r: nat)
    ensures (forall i :: 0 <= i < |s| ==> !IsLower(s[i])) ==> r == 0
  {
    if s == [] then 0 else Excess(s[..|s| - 1]) * 16 + (if IsLower(s[|s| - 1]) then 32 else 0)
  }

  lemma {:induction false} ExcessPositive(s: seq<byte>, i: nat)
    requires i < |s| && IsLower(s[i])
    ensures Excess(s) >= 32
  {
    if i < |s| - 1 {
      ExcessPositive(s[..|s| - 1], i);
    }
  }

  lemma {:induction false} HexIsTruePlusExcess(s: seq<byte>)
    requires forall i :: 0 <= i < |s| ==> IsHexDigit(s[i])
    ensures Hex(s) == (TrueValue(s) + Excess(s)) % WORD32
  {
    if s != [] {
      var t := s[..|s| - 1];
      HexIsTruePlusExcess(t);
      var v := TrueValue(t) + Excess(t);
      ModStep(v, Digit(s[|s| - 1]));
    }
  }

  lemma ModStep(v: nat, d: int)
    ensures (v % WORD32 * 16 + d) % WORD32 == (v * 16 + d) % WORD32
  {
    var q := v / WORD32;
    assert v == q * WORD32 + v % WORD32;
    assert v * 16 + d == (q * 16) * WORD32 + (v % WORD32 * 16 + d);
    ModAdd(q * 16, v % WORD32 * 16 + d);
  }

  lemma ModAdd(k: int, a: int)
    ensures (k * WORD32 + a) % WORD32 == a % WORD32
  {
  }

  /** A field of eight hexadecimal digits for a size below 2^31 is read correctly exactly when no
      digit is lower-case. */
  lemma UpperCaseOnly(s: seq<byte>)
    requires |s| == 8 && (forall i :: 0 <= i < |s| ==> IsHexDigit(s[i])) && TrueValue(s) < 0x8000_0000
    ensures Hex(s) == TrueValue(s) <==> forall i :: 0 <= i < |s| ==> !IsLower(s[i])
  {
    HexIsTruePlusExcess(s);
    SmallExcess(s);
    if i :| 0 <= i < |s| && IsLower(s[i]) {
      ExcessPositive(s, i);
    }
  }

  /** The field 0000000a, ten, is read as forty-two. */
  lemma LowerCaseMisread()
    ensures var field: seq<byte> := [48, 48, 48, 48, 48, 48, 48, 97]; Hex(field) == 42 && TrueValue(field) == 10
  {
    var field: seq<byte> := [48, 48, 48, 48, 48, 48, 48, 97];
    Zeros(7);
    assert field[..7] == seq(7, _ => 48);
  }

  lemma {:induction false} Zeros(n: nat)
    ensures Hex(seq(n, _ => 48)) == 0 && TrueValue(seq(n, _ => 48)) == 0
  {
    if n > 0 {
      Zeros(n - 1);
      assert seq(n, _ => 48)[..n - 1] == seq(n - 1, _ => 48);
    }
  }

  lemma SmallExcess(s: seq<byte>)
    requires |s| == 8 && (forall i :: 0 <= i < |s| ==> IsHexDigit(s[i])) && TrueValue(s) < 0x8000_0000
    ensures Excess(s) < 0x8000_0000
  {
    Growth(s, 1);
    FirstDigit(s);
    ExcessGrowth(s, 1);
  }

  /** Each further digit multiplies the value by at least 16. */
  lemma {:induction false} Growth(s: seq<byte>, n: nat)
    requires n <= |s| && (forall i :: 0 <= i < |s| ==> IsHexDigit(s[i]))
    ensures TrueValue(s) >= TrueValue(s[..n]) * Pow16(|s| - n)
    decreases |s|
  {
    if n < |s| {
      var t := s[..|s| - 1];
      Growth(t, n);
      assert t[..n] == s[..n];
      MulPow(TrueValue(s[..n]), |t| - n);
    } else {
      assert s[..n] == s;
    }
  }

  lemma MulPow(a: nat, k: nat)
    ensures a * Pow16(k) * 16 == a * Pow16(k + 1)
  {
  }

  function Pow16(k: nat): nat { if k == 0 then 1 else 16 * Pow16(k - 1) }

  lemma FirstDigit(s: seq<byte>)
    requires |s| == 8 && (forall i :: 0 <= i < |s| ==> IsHexDigit(s[i]))
    requires TrueValue(s) < 0x8000_0000 && TrueValue(s) >= TrueValue(s[..1]) * Pow16(7)
    ensures Excess(s[..1]) == 0
  {
    var t := s[..1];
    assert t[..0] == [];
    assert TrueValue(t) == TrueDigit(s[0]);
    assert Pow16(7) == 0x1000_0000 by { assert Pow16(2) == 256; assert Pow16(4) == 65536; }
    assert !IsLower(s[0]);
  }

  lemma {:induction false} ExcessGrowth(s: seq<byte>, n: nat)
    requires n <= |s| && Excess(s[..n]) == 0
    ensures Excess(s) <= 3 * (Pow16(|s| - n) - 1)
    decreases |s|
  {
    if n < |s| {
      var t := s[..|s| - 1];
      assert t[..n] == s[..n];
      ExcessGrowth(t, n);
    } else {
      assert s[..n] == s;
    }
  }

  // ---------------------------------------------------------------- the printer

  function HexChar(d: nat): (c: byte)
    requires d < 16
    ensures IsHexDigit(c) && !IsLower(c) && Digit(c) == d
  {
    if d < 10 then 48 + d else 55 + d
  }

  /** n in k upper-case hexadecimal digits. */
  function HexField(n: nat, k: nat): (s: seq<byte>)
    ensures |s| == k && 0 !in s
  {
    if k == 0 then [] else HexField(n / 16, k - 1) + [HexChar(n % 16)]
  }

  lemma {:induction false} HexOfField(n: nat, k: nat)
    requires n < WORD32 && n < Pow16(k)
    ensures Hex(HexField(n, k)) == n
    decreases k
  {
    if k > 0 {
      HexOfField(n / 16, k - 1);
    }
  }

  /** One archive member; the header fields that the reader ignores are arbitrary. */
  datatype Entry = Entry(name: seq<byte>, data: seq<byte>, front: seq<byte>, middle: seq<byte>, check: seq<byte>)

  predicate EntryOk(e: Entry) {
    && 0 !in e.name && |e.name| + 1 < 0x8000_0000 && |e.data| < 0x8000_0000
    && |e.front| == 48 && |e.middle| == 32 && |e.check| == 8
  }

  function Header(e: Entry): (h: seq<byte>)
    requires EntryOk(e)
    ensures |h| == HEADER
  {
    MAGIC + (e.front + (HexField(|e.data|, 8) + (e.middle + (HexField(|e.name| + 1, 8) + e.check))))
  }

  function NameLen(e: Entry): nat { HEADER + |e.name| + 1 }

  function PrintEntry(e: Entry): (s: seq<byte>)
    requires EntryOk(e)
    ensures |s| == Align4(NameLen(e)) + Align4(|e.data|)
  {
    Header(e) + (e.name + (NUL + (Blank(Align4(NameLen(e)) - NameLen(e)) + (e.data + Blank(Align4(|e.data|) - |e.data|)))))
  }

  predicate AllOk(l: seq<Entry>) { forall i :: 0 <= i < |l| ==> EntryOk(l[i]) }

  /** The members in order, then the trailer. */
  function PrintArchive(l: seq<Entry>, trailer: Entry): seq<byte>
    requires AllOk(l) && EntryOk(trailer)
  {
    if l == [] then PrintEntry(trailer) else PrintEntry(l[0]) + PrintArchive(l[1..], trailer)
  }

  // ---------------------------------------------------------------- reading one header

  lemma AtHeader(m: seq<byte>, p: nat, e: Entry)
    requires EntryOk(e) && At(m, p, Header(e))
    ensures p + HEADER <= |m| && m[p..p + 6] == MAGIC
    ensures Hex(m[p + 54..p + 62]) == |e.data| && Hex(m[p + 94..p + 102]) == |e.name| + 1
  {
    hide Hex, HexField;
    var size, nameSize := HexField(|e.data|, 8), HexField(|e.name| + 1, 8);
    AtParts(m, p, MAGIC, e.front + (size + (e.middle + (nameSize + e.check))));
    AtParts(m, p + 6, e.front, size + (e.middle + (nameSize + e.check)));
    AtParts(m, p + 54, size, e.middle + (nameSize + e.check));
    AtParts(m, p + 62, e.middle, nameSize + e.check);
    AtParts(m, p + 94, nameSize, e.check);
    EightDigits();
    HexOfField(|e.data|, 8);
    HexOfField(|e.name| + 1, 8);
  }

  lemma EightDigits()
    ensures Pow16(8) == WORD32
  {
    assert Pow16(2) == 256;
    assert Pow16(4) == 65536;
    assert Pow16(6) == 0x100_0000;
  }

  /** Where the parts of a printed member lie. */
  lemma AtEntry(m: seq<byte>, p: nat, e: Entry)
    requires EntryOk(e) && At(m, p, PrintEntry(e))
    ensures At(m, p, Header(e)) && Terminated(m, p) && Terminated(m, p + HEADER) && Text(m, p + HEADER) == e.name
    ensures At(m, p + Align4(NameLen(e)), e.data)
  {
    hide At, Header, Text, Terminated, Align4;
    var pad := Blank(Align4(NameLen(e)) - NameLen(e));
    var tail := e.data + Blank(Align4(|e.data|) - |e.data|);
    AtParts(m, p, Header(e), e.name + (NUL + (pad + tail)));
    AtParts(m, p + HEADER, e.name, NUL + (pad + tail));
    AtTail(m, p, e, pad, tail);
    AtText(m, p + HEADER, e.name);
    Earlier(m, p, p + HEADER);
  }

  lemma AtTail(m: seq<byte>, p: nat, e: Entry, pad: seq<byte>, tail: seq<byte>)
    requires At(m, p + HEADER + |e.name|, NUL + (pad + tail)) && NameLen(e) + |pad| == Align4(NameLen(e))
    requires tail == e.data + Blank(Align4(|e.data|) - |e.data|)
    ensures At(m, p + HEADER + |e.name|, NUL) && At(m, p + Align4(NameLen(e)), e.data)
  {
    hide At, Align4;
    AtParts(m, p + HEADER + |e.name|, NUL, pad + tail);
    AtParts(m, p + HEADER + |e.name| + 1, pad, tail);
    AtParts(m, p + Align4(NameLen(e)), e.data, Blank(Align4(|e.data|) - |e.data|));
  }

  lemma AtText(m: seq<byte>, p: nat, t: seq<byte>)
    requires At(m, p, t) && At(m, p + |t|, NUL) && 0 !in t
    ensures Terminated(m, p) && Text(m, p) == t
  {
    assert m[p + |t|] == m[p + |t|..p + |t| + 1][0];
    TextIs(m, p, t);
  }

  lemma Earlier(m: seq<byte>, p: nat, q: nat)
    requires p <= q && Terminated(m, q)
    ensures Terminated(m, p)
  {
  }

  /** strncmp(hdr->c_magic, "070701", 6) == 0 */
  method MagicOk(m: seq<byte>, p: nat) returns (ok: bool)
    requires Terminated(m, p) && p + 6 <= |m| && Terminated(m, p + 6)
    ensures ok <==> m[p..p + 6] == MAGIC
  {
    hide Text, Terminated, Take;
    MagicText();
    if m[p..p + 6] == MAGIC { TextTake(m, p, 6); }
    if Take(Text(m, p), 6) == MAGIC { TakenIsThere(m, p); }
    ok := PrefixesEqual(m, p, MAGIC + NUL, 0, 6);
  }

  lemma TakenIsThere(m: seq<byte>, p: nat)
    requires p + 6 <= |m| && Take(Text(m, p), 6) == MAGIC
    ensures m[p..p + 6] == MAGIC
  {
    var t := Text(m, p);
    assert |Take(t, 6)| == 6;
    assert m[p..p + |t|][..6] == m[p..p + 6];
  }

  lemma MagicText()
    ensures Terminated(MAGIC + NUL, 0) && Take(Text(MAGIC + NUL, 0), 6) == MAGIC
  {
    TextIs(MAGIC + NUL, 0, MAGIC);
  }

  // ---------------------------------------------------------------- cpio_get_all_files

  datatype Member = Member(name: nat, size: nat, data: nat, next: nat)

  /** One step of the enumeration: the member's name, size and data and the next header; nothing
      at the trailer. */
  method GetAllFiles(m: seq<byte>, cur: Option<nat>, base: Option<nat>, ghost e: Entry) returns (r: Option<Member>)
    requires EntryOk(e) && (cur.Some? ==> At(m, cur.value, PrintEntry(e)))
    requires cur.None? && base.Some? ==> At(m, base.value, PrintEntry(e))
    ensures r.None? <==> (cur.None? && base.None?) || e.name == TRAILER
    ensures r.Some? ==>
              var p := if cur.Some? then cur.value else base.value;
              && Terminated(m, r.value.name) && Text(m, r.value.name) == e.name
              && r.value.size == |e.data| && At(m, r.value.data, e.data)
              && r.value.next == p + |PrintEntry(e)|
  {
    hide At, Header, Text, Terminated, Align4, Hex, PrintEntry;
    var start := if cur.None? then base else cur;
    if start.None? { return None; }
    var p := start.value;
    AtEntry(m, p, e);
    AtHeader(m, p, e);
    Earlier(m, p + 6, p + HEADER);
    var ok := MagicOk(m, p);
    if !ok { return None; }
    var namesize := HexToInt(m, p + 94, 8);
    var filesize := HexToInt(m, p + 54, 8);
    var filename := p + HEADER;
    TrailerText();
    var last := StringsEqual(m, filename, TRAILER + NUL, 0);
    if last { return None; }
    var dataOffset := Align4(HEADER + namesize) % WORD32;
    OffsetFits(namesize);
    EntryLength(e);
    return Some(Member(filename, filesize, p + dataOffset, p + dataOffset + Align4(filesize)));
  }

  lemma EntryLength(e: Entry)
    requires EntryOk(e)
    ensures |PrintEntry(e)| == Align4(NameLen(e)) + Align4(|e.data|)
  {
  }

  lemma OffsetFits(n: nat)
    requires n <= 0x8000_0000
    ensures Align4(HEADER + n) < WORD32
  {
  }

  lemma TrailerText()
    ensures Terminated(TRAILER + NUL, 0) && Text(TRAILER + NUL, 0) == TRAILER
  {
    TextIs(TRAILER + NUL, 0, TRAILER);
  }

  // ---------------------------------------------------------------- the whole enumeration

  predicate NoTrailerName(l: seq<Entry>) { forall i :: 0 <= i < |l| ==> l[i].name != TRAILER }

  /** What a member record refers to. */
  ghost predicate Denotes(m: seq<byte>, f: Member, e: Entry) {
    && Terminated(m, f.name) && Text(m, f.name) == e.name && f.size == |e.data| && At(m, f.data, e.data)
  }

  ghost predicate AllDenote(m: seq<byte>, files: seq<Member>, l: seq<Entry>) {
    |files| == |l| && forall i :: 0 <= i < |l| ==> Denotes(m, files[i], l[i])
  }

  lemma ArchiveParts(m: seq<byte>, p: nat, l: seq<Entry>, trailer: Entry)
    requires AllOk(l) && EntryOk(trailer) && At(m, p, PrintArchive(l, trailer))
    ensures l == [] ==> At(m, p, PrintEntry(trailer))
    ensures l != [] ==> At(m, p, PrintEntry(l[0])) && At(m, p + |PrintEntry(l[0])|, PrintArchive(l[1..], trailer))
  {
    hide At, PrintEntry;
    if l != [] {
      AtParts(m, p, PrintEntry(l[0]), PrintArchive(l[1..], trailer));
    }
  }

  /** Repeated cpio_get_all_files over a printed archive yields exactly its members, in order, and
      stops at the trailer. */
  method ListFiles(m: seq<byte>, base: nat, ghost l: seq<Entry>, ghost trailer: Entry) returns (files: seq<Member>)
    requires AllOk(l) && NoTrailerName(l) && EntryOk(trailer) && trailer.name == TRAILER
    requires At(m, base, PrintArchive(l, trailer))
    ensures AllDenote(m, files, l)
  {
    hide At, PrintEntry, PrintArchive, Denotes;
    files := [];
    var cur: Option<nat> := None;
    ghost var p: nat, rest := base, l;
    ArchiveParts(m, base, l, trailer);
    ghost var e := if l == [] then trailer else l[0];
    var f := GetAllFiles(m, cur, Some(base), e);
    if f.Some? { Denoted(m, f.value, e); }
    while f.Some?
      invariant |files| <= |l| && rest == l[|files|..]
      invariant At(m, p, PrintArchive(rest, trailer))
      invariant AllDenote(m, files, l[..|files|])
      invariant f.Some? <==> rest != []
      invariant f.Some? ==> Denotes(m, f.value, rest[0]) && f.value.next == p + |PrintEntry(rest[0])|
      decreases |rest|
    {
      ArchiveParts(m, p, rest, trailer);
      files := files + [f.value];
      p := f.value.next;
      rest := rest[1..];
      cur := Some(f.value.next);
      ArchiveParts(m, p, rest, trailer);
      e := if rest == [] then trailer else rest[0];
      f := GetAllFiles(m, cur, Some(base), e);
      if f.Some? { Denoted(m, f.value, e); }
    }
  }

  /** The members that ramfs loads: not ".", and only while there is room in the root directory. */
  function Loaded(l: seq<Entry>, room: nat): (r: seq<Entry>)
    ensures |r| <= room && |r| <= |l|
  {
    if l == [] || room == 0 then []
    else if l[0].name == [46] then Loaded(l[1..], room)
    else [l[0]] + Loaded(l[1..], room - 1)
  }

  /** The members other than ".". */
  function Others(l: seq<Entry>): (n: nat)
    ensures n <= |l|
  {
    if l == [] then 0 else Others(l[..|l| - 1]) + (if l[|l| - 1].name == [46] then 0 else 1)
  }

  lemma {:induction false} OthersCons(e: Entry, l: seq<Entry>)
    ensures Others([e] + l) == Others(l) + (if e.name == [46] then 0 else 1)
    decreases |l|
  {
    if l == [] {
      assert ([e] + l)[..0] == [];
    } else {
      assert ([e] + l)[..|l|] == [e] + l[..|l| - 1];
      OthersCons(e, l[..|l| - 1]);
    }
  }

  /** A member other than "." before which fewer such members come than there is room for is loaded, in
      the place behind them. */
  lemma {:induction false} LoadedInOrder(l: seq<Entry>, room: nat, i: nat)
    requires i < |l| && l[i].name != [46]
    requires Others(l[..i]) < room
    ensures Others(l[..i]) < |Loaded(l, room)| && Loaded(l, room)[Others(l[..i])] == l[i]
    decreases |l|
  {
    hide Others;
    OthersOfNone();
    if i == 0 {
      assert l[..i] == [];
    } else {
      var r := l[1..];
      assert l[..i] == [l[0]] + r[..i - 1];
      OthersCons(l[0], r[..i - 1]);
      LoadedInOrder(r, if l[0].name == [46] then room else room - 1, i - 1);
    }
  }

  lemma OthersOfNone()
    ensures Others([]) == 0
  {
  }

  /** And nothing else is loaded. */
  lemma {:induction false} LoadedCount(l: seq<Entry>, room: nat)
    ensures |Loaded(l, room)| == if Others(l) < room then Others(l) else room
    decreases |l|
  {
    if l != [] && room > 0 {
      assert l == [l[0]] + l[1..];
      OthersCons(l[0], l[1..]);
      LoadedCount(l[1..], if l[0].name == [46] then room else room - 1);
    }
  }

  /** An archive of at most sixteen members without "." is loaded whole. */
  lemma {:induction false} AllLoadedIff(l: seq<Entry>, room: nat)
    ensures Loaded(l, room) == l <==> |l| <= room && forall i :: 0 <= i < |l| ==> l[i].name != [46]
  {
    if l != [] && room > 0 && l[0].name != [46] {
      AllLoadedIff(l[1..], room - 1);
      assert l == [l[0]] + l[1..];
      assert forall i :: 0 < i < |l| ==> l[i] == l[1..][i - 1];
      assert Loaded(l, room)[1..] == Loaded(l[1..], room - 1);
    } else if l != [] && room > 0 {
      assert |Loaded(l, room)| <= |l[1..]|;
    }
  }

  /** The seventeenth member of an archive is not loaded, and neither is ".". */
  lemma SeventeenthDropped(e: Entry)
    requires e.name == [97]
    ensures Loaded(seq(17, _ => e), RAMFS_MAX_ENTRIES) != seq(17, _ => e)
    ensures Loaded([e.(name := [46])], RAMFS_MAX_ENTRIES) != [e.(name := [46])]
  {
    AllLoadedIff(seq(17, _ => e), RAMFS_MAX_ENTRIES);
    AllLoadedIff([e.(name := [46])], RAMFS_MAX_ENTRIES);
  }

  /** A file of the ramfs root directory. */
  datatype RamFile = RamFile(name: seq<byte>, size: nat, data: nat)

  ghost predicate HoldsMember(m: seq<byte>, f: RamFile, e: Entry) {
    f.name == Take(e.name, RAMFS_MAX_NAME - 1) && f.size == |e.data| && At(m, f.data, e.data)
  }

  ghost predicate AllHold(m: seq<byte>, files: seq<RamFile>, l: seq<Entry>) {
    |files| == |l| && forall i :: 0 <= i < |l| ==> HoldsMember(m, files[i], l[i])
  }

  /** The members still to be loaded follow those that are. */
  ghost predicate LoadedSoFar(m: seq<byte>, files: seq<RamFile>, rest: seq<Entry>, l: seq<Entry>) {
    && |files| <= RAMFS_MAX_ENTRIES && |Loaded(l, RAMFS_MAX_ENTRIES)| >= |files|
    && AllHold(m, files, Loaded(l, RAMFS_MAX_ENTRIES)[..|files|])
    && Loaded(l, RAMFS_MAX_ENTRIES)[|files|..] == Loaded(rest, RAMFS_MAX_ENTRIES - |files|)
  }

  lemma LoadStep(m: seq<byte>, files: seq<RamFile>, rest: seq<Entry>, l: seq<Entry>, f: RamFile)
    requires LoadedSoFar(m, files, rest, l) && rest != [] && |files| < RAMFS_MAX_ENTRIES
    ensures rest[0].name == [46] ==> LoadedSoFar(m, files, rest[1..], l)
    ensures rest[0].name != [46] && HoldsMember(m, f, rest[0]) ==> LoadedSoFar(m, files + [f], rest[1..], l)
  {
    hide HoldsMember;
    if rest[0].name != [46] && HoldsMember(m, f, rest[0]) {
      var all, n := Loaded(l, RAMFS_MAX_ENTRIES), |files|;
      assert all[n..][0] == rest[0];
      assert all[n..][1..] == all[n + 1..];
      assert (files + [f])[..n] == files && all[..n + 1] == all[..n] + [rest[0]];
    }
  }

  /** ramfs_setup_mount's loop over the archive. */
  method LoadFiles(m: seq<byte>, base: nat, ghost l: seq<Entry>, ghost trailer: Entry) returns (files: seq<RamFile>)
    requires AllOk(l) && NoTrailerName(l) && EntryOk(trailer) && trailer.name == TRAILER
    requires At(m, base, PrintArchive(l, trailer))
    ensures AllHold(m, files, Loaded(l, RAMFS_MAX_ENTRIES))
  {
    hide At, PrintEntry, PrintArchive, HoldsMember, LoadedSoFar, Text, Terminated, Take;
    files := [];
    var cur: Option<nat> := None;
    ghost var p: nat, rest := base, l;
    NothingLoaded(m, l);
    while true
      invariant AllOk(rest) && NoTrailerName(rest) && At(m, p, PrintArchive(rest, trailer))
      invariant p == if cur.Some? then cur.value else base
      invariant LoadedSoFar(m, files, rest, l)
      decreases |rest|
    {
      ArchiveParts(m, p, rest, trailer);
      ghost var e := if rest == [] then trailer else rest[0];
      var f := GetAllFiles(m, cur, Some(base), e);
      if f.None? { break; }
      if |files| >= RAMFS_MAX_ENTRIES { break; }
      DotText();
      var isDot := StringsEqual(m, f.value.name, [46] + NUL, 0);
      var file := RamFile(Take(Text(m, f.value.name), RAMFS_MAX_NAME - 1), f.value.size, f.value.data);
      Held(m, file, e);
      LoadStep(m, files, rest, l, file);
      if !isDot { files := files + [file]; }
      cur := Some(f.value.next);
      p := f.value.next;
      rest := rest[1..];
    }
    LoadEnds(m, files, rest, l);
  }

  lemma NothingLoaded(m: seq<byte>, l: seq<Entry>)
    ensures LoadedSoFar(m, [], l, l)
  {
  }

  lemma LoadEnds(m: seq<byte>, files: seq<RamFile>, rest: seq<Entry>, l: seq<Entry>)
    requires LoadedSoFar(m, files, rest, l) && (rest == [] || |files| >= RAMFS_MAX_ENTRIES)
    ensures AllHold(m, files, Loaded(l, RAMFS_MAX_ENTRIES))
  {
    var all, n := Loaded(l, RAMFS_MAX_ENTRIES), |files|;
    assert all[n..] == [];
    assert all[..n] == all;
  }

  lemma Held(m: seq<byte>, f: RamFile, e: Entry)
    requires f.name == Take(e.name, RAMFS_MAX_NAME - 1) && f.size == |e.data| && At(m, f.data, e.data)
    ensures HoldsMember(m, f, e)
  {
  }

  lemma DotText()
    ensures Terminated([46] + NUL, 0) && Text([46] + NUL, 0) == [46]
  {
    TextIs([46] + NUL, 0, [46]);
  }

  lemma Denoted(m: seq<byte>, f: Member, e: Entry)
    requires Terminated(m, f.name) && Text(m, f.name) == e.name && f.size == |e.data| && At(m, f.data, e.data)
    ensures Denotes(m, f, e)
  {
  }

  // ---------------------------------------------------------------- cpio_get_file

  predicate StartsWithTrailer(t: seq<byte>) { |t| >= 10 && t[..10] == TRAILER }

  /** The string at p agrees with the trailer name in its first i characters. */
  ghost predicate AgreesUpTo(m: seq<byte>, p: nat, i: nat)
    requires i <= 10
  {
    Terminated(m, p) && |Text(m, p)| >= i && forall h :: 0 <= h < i ==> Text(m, p)[h] == TRAILER[h]
  }

  /** The character at index i of a string; NUL at its end. */
  lemma CharAt(m: seq<byte>, p: nat, i: nat)
    requires Terminated(m, p) && i <= |Text(m, p)|
    ensures p + i < |m| && m[p + i] == if i < |Text(m, p)| then Text(m, p)[i] else 0
  {
    TextDrop(m, p, i);
    TextEnds(m, p + i);
    TextStep(m, p + i);
    if i < |Text(m, p)| { assert Text(m, p)[i] == Text(m, p)[i..][0]; }
  }

  lemma AgreeStep(m: seq<byte>, p: nat, i: nat)
    requires i < 10 && AgreesUpTo(m, p, i)
    ensures p + i < |m| && if m[p + i] == TRAILER[i] then AgreesUpTo(m, p, i + 1) else !StartsWithTrailer(Text(m, p))
  {
    hide Text, Terminated;
    CharAt(m, p, i);
    if |Text(m, p)| >= 10 { assert Text(m, p)[..10][i] == Text(m, p)[i]; }
  }

  /** memcmp(current_filename, "TRAILER!!!", 10) == 0, byte by byte with an early exit. */
  method IsTrailer(m: seq<byte>, p: nat) returns (r: bool)
    requires Terminated(m, p)
    ensures r <==> StartsWithTrailer(Text(m, p))
  {
    hide Text, Terminated;
    var i := 0;
    while i < 10
      invariant 0 <= i <= 10 && AgreesUpTo(m, p, i)
    {
      AgreeStep(m, p, i);
      if m[p + i] != TRAILER[i] { return false; }
      i := i + 1;
    }
    return true;
  }

  /** The first member of a name. */
  function First(l: seq<Entry>, name: seq<byte>): (r: Option<Entry>)
    ensures r.None? ==> forall i :: 0 <= i < |l| ==> l[i].name != name
    ensures r.Some? ==> exists i :: 0 <= i < |l| && l[i] == r.value && l[i].name == name && forall j :: 0 <= j < i ==> l[j].name != name
  {
    if l == [] then None else if l[0].name == name then Some(l[0]) else First(l[1..], name)
  }

  /** What the search finds: it gives up at the first name that begins like the trailer. */
  function Search(l: seq<Entry>, name: seq<byte>): Option<Entry> {
    if l == [] || StartsWithTrailer(l[0].name) then None
    else if l[0].name == name then Some(l[0])
    else Search(l[1..], name)
  }

  /** A member whose name begins like the trailer, at or before the first member of the name. */
  predicate Hidden(l: seq<Entry>, name: seq<byte>) {
    l != [] && (StartsWithTrailer(l[0].name) || (l[0].name != name && Hidden(l[1..], name)))
  }

  /** The search returns the first member of a name exactly when no member hides it, and without
      such member names it always does. */
  lemma {:induction false} SearchIsFirst(l: seq<Entry>, name: seq<byte>)
    ensures Search(l, name) == First(l, name) <==> First(l, name) == None || !Hidden(l, name)
    ensures (forall i :: 0 <= i < |l| ==> !StartsWithTrailer(l[i].name)) ==> Search(l, name) == First(l, name)
  {
    if l != [] {
      SearchIsFirst(l[1..], name);
    }
  }

  /** A member called TRAILER!!!x hides the member a behind it. */
  lemma TrailerPrefixHides(front: Entry, back: Entry)
    requires front.name == TRAILER + [120] && back.name == [97]
    ensures Search([front, back], [97]) == None && First([front, back], [97]) == Some(back)
  {
    assert StartsWithTrailer(front.name);
    assert [front, back][1..] == [back] && front.name[0] != 97;
    assert front.name != [97];
  }

  /** cpio_get_file on a printed archive. */
  method GetFile(m: seq<byte>, base: Option<nat>, name: seq<byte>, ghost l: seq<Entry>, ghost trailer: Entry)
    returns (r: Option<(nat, nat)>)
    requires AllOk(l) && EntryOk(trailer) && trailer.name == TRAILER && Terminated(name, 0)
    requires base.Some? ==> At(m, base.value, PrintArchive(l, trailer))
    ensures r.Some? <==> base.Some? && Search(l, Text(name, 0)).Some?
    ensures r.Some? ==> At(m, r.value.0, Search(l, Text(name, 0)).value.data)
                        && r.value.1 == |Search(l, Text(name, 0)).value.data|
  {
    hide At, Header, Text, Terminated, Align4, Hex, PrintEntry, PrintArchive;
    if base.None? { return None; }
    var p: nat := base.value;
    ghost var rest := l;
    while true
      invariant AllOk(rest) && At(m, p, PrintArchive(rest, trailer)) && Search(rest, Text(name, 0)) == Search(l, Text(name, 0))
      decreases |rest|
    {
      ArchiveParts(m, p, rest, trailer);
      ghost var e := if rest == [] then trailer else rest[0];
      AtEntry(m, p, e);
      AtHeader(m, p, e);
      Earlier(m, p + 6, p + HEADER);
      var ok := MagicOk(m, p);
      if !ok { return None; }
      var namesize := HexToInt(m, p + 94, 8);
      var filesize := HexToInt(m, p + 54, 8);
      var current := p + HEADER;
      var last := IsTrailer(m, current);
      if last { break; }
      OffsetFits(namesize);
      EntryLength(e);
      var same := StringsEqual(m, current, name, 0);
      if same {
        return Some((p + Align4(HEADER + namesize) % WORD32, filesize));
      }
      p := p + Align4(HEADER + namesize) + Align4(filesize);
      rest := rest[1..];
    }
    return None;
  }
}
