/** Sv39 page table entries (lab7/inc/paging.h).  The page table model keeps an entry as the
    meaning of its 64-bit word: a physical address and ten flags.  Here is that meaning, and the
    word expressions with which the kernel makes and changes entries, proved to act on it. */
module Pte {

  /** The user half: root entries 0 to 255, addresses below USER_END. */
  const USER_END := 0x40_0000_0000
  const USER_PAGES := 0x400_0000

  datatype Flags = Flags(v: bool, r: bool, w: bool, x: bool, u: bool, g: bool, a: bool, d: bool, cow: bool, soft: bool)

  datatype Pte = Pte(pa: nat, f: Flags)

  const NO_FLAGS := Flags(false, false, false, false, false, false, false, false, false, false)
  const TABLE_FLAGS := NO_FLAGS.(v := true)
  const PROT_USER_BASE := Flags(true, false, false, false, true, false, true, true, false, false)
  const PROT_USER_RX := PROT_USER_BASE.(r := true, x := true)
  const PROT_USER_RW := PROT_USER_BASE.(r := true, w := true)

  /** A cleared word: not valid. */
  const ZERO := Pte(0, NO_FLAGS)

  /** fork: a writable entry loses W and gains the copy-on-write mark. */
  function CowShare(e: Pte): Pte {
    if e.f.w then e.(f := e.f.(w := false, cow := true)) else e
  }

  /** The permissions a copy-on-write fault gives back: the old ones, with W, without the mark. */
  function Unshared(f: Flags): Flags {
    f.(cow := false, w := true)
  }

  // ---------------------------------------------------------------- machine words

  const PTE_V: bv64 := 0x001
  const PTE_R: bv64 := 0x002
  const PTE_W: bv64 := 0x004
  const PTE_X: bv64 := 0x008
  const PTE_U: bv64 := 0x010
  const PTE_G: bv64 := 0x020
  const PTE_A: bv64 := 0x040
  const PTE_D: bv64 := 0x080
  const PTE_COW: bv64 := 0x100

  function FlagBit(b: bool, m: bv64): bv64 { if b then m else 0 }

  /** The flag field of a word. */
  function FlagBits(f: Flags): bv64 {
    FlagBit(f.v, PTE_V) | FlagBit(f.r, PTE_R) | FlagBit(f.w, PTE_W) | FlagBit(f.x, PTE_X) | FlagBit(f.u, PTE_U)
    | FlagBit(f.g, PTE_G) | FlagBit(f.a, PTE_A) | FlagBit(f.d, PTE_D) | FlagBit(f.cow, PTE_COW) | FlagBit(f.soft, 0x200)
  }

  /** MAKE_PTE(pa, flags) */
  function MakePte(pa: bv64, flags: bv64): bv64 {
    ((pa >> 12) << 10) | flags
  }

  /** (pte >> 10) << 12 */
  function WordPa(w: bv64): bv64 { (w >> 10) << 12 }

  function WordFlags(w: bv64): Flags {
    Flags(w & PTE_V != 0, w & PTE_R != 0, w & PTE_W != 0, w & PTE_X != 0, w & PTE_U != 0,
          w & PTE_G != 0, w & PTE_A != 0, w & PTE_D != 0, w & PTE_COW != 0, w & 0x200 != 0)
  }

  /** A page-aligned physical address of at most 56 bits. */
  predicate PageAddress(pa: bv64) { pa & 0xFFF == 0 && pa >> 56 == 0 }

  lemma LowFlags(f: Flags)
    ensures var w := FlagBits(f);
            (w & PTE_V != 0) == f.v && (w & PTE_R != 0) == f.r && (w & PTE_W != 0) == f.w && (w & PTE_X != 0) == f.x
            && (w & PTE_U != 0) == f.u
  {
  }

  lemma HighFlags(f: Flags)
    ensures var w := FlagBits(f);
            (w & PTE_G != 0) == f.g && (w & PTE_A != 0) == f.a && (w & PTE_D != 0) == f.d && (w & PTE_COW != 0) == f.cow
            && (w & 0x200 != 0) == f.soft
  {
  }

  /** A flag record is recovered from its bits, which fill only the low ten bits. */
  lemma FlagFieldRoundTrip(f: Flags)
    ensures FlagBits(f) & 0x3FF == FlagBits(f) && WordFlags(FlagBits(f)) == f
  {
    hide FlagBits;
    LowFlags(f);
    HighFlags(f);
    FlagBitsOfWord(FlagBits(f));
  }

  /** The ten low bits and the rest of a word do not interfere. */
  lemma FieldsIndependent(hi: bv64, lo: bv64)
    requires hi & 0x3FF == 0 && lo & 0x3FF == lo
    ensures (hi | lo) & 0x3FF == lo && (hi | lo) >> 10 == hi >> 10
  {
  }

  lemma FlagsOfLowBits(w: bv64)
    ensures WordFlags(w) == WordFlags(w & 0x3FF)
  {
  }

  lemma ShiftedAddress(pa: bv64)
    requires PageAddress(pa)
    ensures ((pa >> 12) << 10) & 0x3FF == 0 && ((((pa >> 12) << 10) >> 10) << 12) == pa
  {
  }

  /** Unpacking a packed entry gives back its address and every one of its flags. */
  lemma UnpackOfPack(pa: bv64, flags: bv64)
    requires PageAddress(pa) && flags & 0x3FF == flags
    ensures WordPa(MakePte(pa, flags)) == pa
    ensures WordFlags(MakePte(pa, flags)) == WordFlags(flags)
  {
    ShiftedAddress(pa);
    FieldsIndependent((pa >> 12) << 10, flags);
    FlagsOfLowBits(MakePte(pa, flags));
  }

  /** The page number of a packed entry lies above its ten low bits, which are its flags. */
  lemma PackedFields(pa: bv64, flags: bv64)
    requires PageAddress(pa) && flags & 0x3FF == flags
    ensures MakePte(pa, flags) >> 10 == pa >> 12 && MakePte(pa, flags) & 0x3FF == flags
  {
    ShiftedAddress(pa);
    FieldsIndependent((pa >> 12) << 10, flags);
    PageNumberKept(pa);
  }

  lemma PageNumberKept(pa: bv64)
    requires PageAddress(pa)
    ensures ((pa >> 12) << 10) >> 10 == pa >> 12
  {
  }

  /** One flag, read and written back, is its bit of the word. */
  lemma OneFlag(w: bv64, m: bv64)
    requires m == 1 || m == 2 || m == 4 || m == 8 || m == 16 || m == 32 || m == 64 || m == 128 || m == 256 || m == 512
    ensures FlagBit(w & m != 0, m) == w & m
  {
  }

  lemma FlagBitsOfWord(w: bv64)
    ensures FlagBits(WordFlags(w)) == w & 0x3FF
  {
    hide FlagBit;
    OneFlag(w, 1); OneFlag(w, 2); OneFlag(w, 4); OneFlag(w, 8); OneFlag(w, 16);
    OneFlag(w, 32); OneFlag(w, 64); OneFlag(w, 128); OneFlag(w, 256); OneFlag(w, 512);
    AllBits(w);
  }

  lemma AllBits(w: bv64)
    ensures (w & 1) | (w & 2) | (w & 4) | (w & 8) | (w & 16) | (w & 32) | (w & 64) | (w & 128) | (w & 256) | (w & 512) == w & 0x3FF
  {
  }

  /** Packing what was unpacked gives back the word, for every word whose top ten bits are clear. */
  lemma PackOfUnpack(w: bv64)
    requires w >> 54 == 0
    ensures PageAddress(WordPa(w)) && MakePte(WordPa(w), FlagBits(WordFlags(w))) == w
  {
    FlagBitsOfWord(w);
  }

  /** pte_val &= ~PTE_W; pte_val |= PTE_COW changes those two flags and nothing else. */
  lemma CowShareWord(w: bv64)
    ensures var r := (w & !PTE_W) | PTE_COW;
            WordPa(r) == WordPa(w) && WordFlags(r) == WordFlags(w).(w := false, cow := true)
  {
  }

  /** ((pte & 0x3FF) & ~PTE_COW) | PTE_W is the flag field with W set and the mark cleared. */
  lemma UnsharedWord(w: bv64)
    ensures (((w & 0x3FF) & !PTE_COW) | PTE_W) == FlagBits(Unshared(WordFlags(w)))
  {
  }

  // ---------------------------------------------------------------- the meaning of a word

  /** The physical address of a page: page-aligned, at most 56 bits. */
  predicate PhysPage(pa: nat) { pa % 4096 == 0 && pa < 0x100_0000_0000_0000 }

  /** A word whose ten upper bits, which Sv39 reserves, are clear. */
  predicate PteWord(w: bv64) { w >> 54 == 0 }

  /** The entry that a word stands for. */
  function Decode(w: bv64): Pte { Pte(WordPa(w) as nat, WordFlags(w)) }

  lemma TopBitClear(w: bv64)
    requires (w as nat) < 0x8000_0000_0000_0000
    ensures w >> 63 == 0
  {
  }

  lemma Doubled(w: bv64)
    requires w >> 63 == 0
    ensures (w << 1) as nat == 2 * (w as nat) && ((w << 1) | 1) as nat == 2 * (w as nat) + 1
  {
  }

  /** The word with a given value, bit by bit. */
  function Word(n: nat): (w: bv64)
    requires n < 0x1_0000_0000_0000_0000
    ensures w as nat == n
  {
    if n == 0 then 0
    else
      var w := Word(n / 2);
      TopBitClear(w);
      Doubled(w);
      if n % 2 == 0 then w << 1 else (w << 1) | 1
  }

  lemma PageNumberBits(w: bv64)
    ensures (w as nat) < 0x1000_0000_0000 <==> w >> 44 == 0
    ensures w >> 44 == 0 ==> (w << 12) as nat == 4096 * (w as nat) && PageAddress(w << 12)
  {
  }

  /** The word of a page address. */
  function PageWord(pa: nat): (w: bv64)
    requires PhysPage(pa)
    ensures w as nat == pa && PageAddress(w)
  {
    PageNumberBits(Word(pa / 4096));
    Word(pa / 4096) << 12
  }

  /** The word of an entry. */
  function Encode(e: Pte): bv64
    requires PhysPage(e.pa)
  {
    MakePte(PageWord(e.pa), FlagBits(e.f))
  }

  lemma DecodeMade(pa: nat, flags: bv64)
    requires PhysPage(pa) && flags & 0x3FF == flags
    ensures Decode(MakePte(PageWord(pa), flags)) == Pte(pa, WordFlags(flags))
  {
    hide MakePte, WordPa, WordFlags;
    UnpackOfPack(PageWord(pa), flags);
  }

  /** Every entry with a page address is the meaning of its word. */
  lemma DecodeOfEncode(e: Pte)
    requires PhysPage(e.pa)
    ensures Decode(Encode(e)) == e
  {
    hide FlagBits, MakePte, WordPa, WordFlags;
    FlagFieldRoundTrip(e.f);
    DecodeMade(e.pa, FlagBits(e.f));
  }

  lemma ThereAndBack(w: bv64)
    ensures (w as nat) as bv64 == w
  {
  }

  lemma SameValue(a: bv64, b: bv64)
    requires a as nat == b as nat
    ensures a == b
  {
    ThereAndBack(a);
    ThereAndBack(b);
  }

  lemma UnpackedBits(w: bv64)
    requires PteWord(w)
    ensures (w >> 10) >> 44 == 0
  {
  }

  lemma PageMultiple(n: nat, pa: nat)
    requires n < 0x1000_0000_0000 && pa == 4096 * n
    ensures PhysPage(pa)
  {
  }

  lemma ShiftedPage(x: bv64)
    requires x >> 44 == 0
    ensures PhysPage((x << 12) as nat)
  {
    hide PhysPage;
    PageNumberBits(x);
    PageMultiple(x as nat, (x << 12) as nat);
  }

  lemma UnpackedPage(w: bv64)
    requires PteWord(w)
    ensures PhysPage(WordPa(w) as nat)
  {
    hide PteWord, PhysPage;
    UnpackedBits(w);
    ShiftedPage(w >> 10);
  }

  lemma PageWordOf(p: bv64)
    requires PhysPage(p as nat)
    ensures PageWord(p as nat) == p
  {
    hide PageWord, PhysPage;
    SameValue(PageWord(p as nat), p);
  }

  lemma EncodeParts(w: bv64, p: bv64, f: Flags)
    requires PhysPage(p as nat) && MakePte(p, FlagBits(f)) == w
    ensures Encode(Pte(p as nat, f)) == w
  {
    hide FlagBits, MakePte, PageWord, PhysPage;
    PageWordOf(p);
  }

  /** And every word with clear upper bits is the word of its meaning: nothing is lost either way. */
  lemma EncodeOfDecode(w: bv64)
    requires PteWord(w)
    ensures PhysPage(Decode(w).pa) && Encode(Decode(w)) == w
  {
    hide FlagBits, MakePte, WordPa, WordFlags, PhysPage, Encode;
    UnpackedPage(w);
    PackOfUnpack(w);
    EncodeParts(w, WordPa(w), WordFlags(w));
  }

  // ---------------------------------------------------------------- the kernel's word expressions

  /** MAKE_PTE(pa, PTE_V): an entry that leads to a table. */
  method TableEntry(pa: nat) returns (e: Pte)
    requires PhysPage(pa)
    ensures e == Pte(pa, TABLE_FLAGS)
  {
    hide MakePte, WordPa;
    var w := MakePte(PageWord(pa), PTE_V);
    DecodeMade(pa, PTE_V);
    e := Decode(w);
  }

  lemma ValidBit(flags: bv64)
    requires flags & 0x3FF == flags
    ensures (flags | PTE_V) & 0x3FF == flags | PTE_V && WordFlags(flags | PTE_V) == WordFlags(flags).(v := true)
  {
  }

  /** MAKE_PTE(pa, prot | PTE_V): a leaf entry. */
  method LeafEntry(pa: nat, prot: Flags) returns (e: Pte)
    requires PhysPage(pa)
    ensures e == Pte(pa, prot.(v := true))
  {
    hide MakePte, WordPa, WordFlags, FlagBits;
    var flags := FlagBits(prot);
    var w := MakePte(PageWord(pa), flags | PTE_V);
    FlagFieldRoundTrip(prot);
    ValidBit(flags);
    DecodeMade(pa, flags | PTE_V);
    e := Decode(w);
  }

  lemma FlagOfWord(e: Pte)
    requires PhysPage(e.pa)
    ensures (Encode(e) & PTE_W != 0) == e.f.w
  {
    hide Encode;
    DecodeOfEncode(e);
    assert WordFlags(Encode(e)).w == e.f.w;
  }

  /** What fork does to the word of a leaf entry before it writes it to both tables. */
  method ShareEntry(e: Pte) returns (writable: bool, shared: Pte)
    requires PhysPage(e.pa)
    ensures writable == e.f.w && shared == CowShare(e)
  {
    hide Encode, WordPa, WordFlags;
    var w := Encode(e);
    DecodeOfEncode(e);
    FlagOfWord(e);
    writable := w & PTE_W != 0;
    if writable {
      CowShareWord(w);
      w := w & !PTE_W;
      w := w | PTE_COW;
    }
    shared := Decode(w);
  }

  /** iterate_page_table(..., GET_PROT) | PTE_W: the permissions a copy-on-write fault maps with. */
  method WritableProt(e: Pte) returns (f: Flags)
    requires PhysPage(e.pa)
    ensures f == Unshared(e.f)
  {
    hide Encode, WordPa, WordFlags, FlagBits;
    var w := Encode(e);
    DecodeOfEncode(e);
    UnsharedWord(w);
    FlagFieldRoundTrip(Unshared(e.f));
    f := WordFlags(((w & 0x3FF) & !PTE_COW) | PTE_W);
  }
}
