/** Bytes and NUL-terminated strings in memory (lab7/src/utils.c).  A string is a position in a
    sequence of bytes; its text runs up to the next zero byte. */
module Bytes {
  type byte = b: nat | b < 256

  // ---------------------------------------------------------------- strings

  ghost predicate Terminated(m: seq<byte>, p: nat) {
    exists e :: p <= e < |m| && m[e] == 0
  }

  function Text(m: seq<byte>, p: nat): (t: seq<byte>)
    ensures p + |t| <= |m| || t == []
    ensures p <= |m| ==> m[p..p + |t|] == t
    ensures p + |t| < |m| ==> m[p + |t|] == 0
    ensures 0 !in t
    decreases |m| - p
  {
    if p >= |m| || m[p] == 0 then [] else [m[p]] + Text(m, p + 1)
  }

  /** A terminated string has its terminator inside the memory. */
  lemma {:induction false} TextEnds(m: seq<byte>, p: nat)
    requires Terminated(m, p)
    ensures p + |Text(m, p)| < |m| && m[p + |Text(m, p)|] == 0
    decreases |m| - p
  {
    var e :| p <= e < |m| && m[e] == 0;
    if m[p] != 0 {
      TextEnds(m, p + 1);
    }
  }

  /** The text of a string is the bytes up to any zero with no zero before it. */
  lemma {:induction false} TextIs(m: seq<byte>, p: nat, t: seq<byte>)
    requires p + |t| < |m| && m[p..p + |t|] == t && m[p + |t|] == 0 && 0 !in t
    ensures Text(m, p) == t && Terminated(m, p)
    decreases |t|
  {
    assert m[p + |t|] == 0;
    if t != [] {
      var u := m[p..p + |t|];
      assert m[p] == u[0] == t[0] && t[0] in t;
      assert m[p + 1..p + 1 + |t[1..]|] == u[1..] == t[1..];
      TextIs(m, p + 1, t[1..]);
      assert t == [t[0]] + t[1..];
    }
  }

  /** One character further: the text loses its head, or ends. */
  lemma TextStep(m: seq<byte>, p: nat)
    requires p < |m| && Terminated(m, p)
    ensures m[p] == 0 ==> Text(m, p) == []
    ensures m[p] != 0 ==> p + 1 < |m| && Terminated(m, p + 1) && Text(m, p) == [m[p]] + Text(m, p + 1)
  {
    if m[p] != 0 { TextEnds(m, p + 1); }
  }

  lemma {:induction false} TextDrop(m: seq<byte>, p: nat, k: nat)
    requires k <= |Text(m, p)| && Terminated(m, p)
    ensures Text(m, p + k) == Text(m, p)[k..] && Terminated(m, p + k)
    decreases k
  {
    if k > 0 {
      TextStep(m, p);
      TextDrop(m, p + 1, k - 1);
    }
  }

  method Strlen(m: seq<byte>, s: nat) returns (len: nat)
    requires Terminated(m, s)
    ensures len == |Text(m, s)| && s + len < |m|
  {
    hide Text, Terminated;
    TextEnds(m, s);
    len := 0;
    while m[s + len] != 0
      invariant s + len < |m| && Terminated(m, s + len) && |Text(m, s)| == len + |Text(m, s + len)|
      decreases |m| - len
    {
      TextStep(m, s + len);
      len := len + 1;
    }
    TextStep(m, s + len);
  }

  /** The position of the first c in a text; its length if there is none. */
  function IndexOf(t: seq<byte>, c: byte): (i: nat)
    ensures i <= |t| && c !in t[..i] && (i < |t| ==> t[i] == c)
    decreases |t|
  {
    if t == [] || t[0] == c then 0 else 1 + IndexOf(t[1..], c)
  }

  lemma IndexStep(a: byte, t: seq<byte>, c: byte)
    ensures IndexOf([a] + t, c) == if a == c then 0 else 1 + IndexOf(t, c)
  {
    assert ([a] + t)[1..] == t;
  }

  /** strchr, which here does not find NUL itself; |m| stands for the null result. */
  method Strchr(m: seq<byte>, s: nat, c: byte) returns (r: nat)
    requires Terminated(m, s)
    ensures r == if IndexOf(Text(m, s), c) < |Text(m, s)| then s + IndexOf(Text(m, s), c) else |m|
  {
    hide Text, IndexOf, Terminated;
    var i := s;
    TextEnds(m, s);
    while m[i] != 0
      invariant s <= i < |m| && Terminated(m, i)
      invariant |Text(m, s)| == i - s + |Text(m, i)| && IndexOf(Text(m, s), c) == i - s + IndexOf(Text(m, i), c)
      decreases |m| - i
    {
      TextStep(m, i);
      IndexStep(m[i], Text(m, i + 1), c);
      if m[i] == c { return i; }
      i := i + 1;
    }
    TextStep(m, i);
    return |m|;
  }

  /** strcmp(...) == 0 is equality of the texts. */
  method StringsEqual(m: seq<byte>, s: nat, n: seq<byte>, t: nat) returns (r: bool)
    requires Terminated(m, s) && Terminated(n, t)
    ensures r <==> Text(m, s) == Text(n, t)
  {
    hide Text, Terminated;
    var i, j := s, t;
    TextEnds(m, s);
    TextEnds(n, t);
    while m[i] != 0 && m[i] == n[j]
      invariant s <= i < |m| && t <= j < |n| && Terminated(m, i) && Terminated(n, j)
      invariant Text(m, s) == Text(n, t) <==> Text(m, i) == Text(n, j)
      decreases |m| - i
    {
      TextStep(m, i);
      TextStep(n, j);
      SameHead(m[i], Text(m, i + 1), Text(n, j + 1));
      i, j := i + 1, j + 1;
    }
    TextStep(m, i);
    TextStep(n, j);
    FirstDiffers(m, i, n, j);
    return m[i] == n[j];
  }

  lemma FirstDiffers(m: seq<byte>, i: nat, n: seq<byte>, j: nat)
    requires i < |m| && j < |n| && Terminated(m, i) && Terminated(n, j) && (m[i] == 0 || m[i] != n[j])
    ensures Text(m, i) == Text(n, j) <==> m[i] == n[j]
  {
    TextStep(m, i);
    TextStep(n, j);
    assert m[i] != 0 ==> Text(m, i)[0] == m[i];
    assert n[j] != 0 ==> Text(n, j)[0] == n[j];
  }

  lemma SameHead(c: byte, a: seq<byte>, b: seq<byte>)
    ensures [c] + a == [c] + b <==> a == b
  {
    assert ([c] + a)[1..] == a && ([c] + b)[1..] == b;
  }

  function Take(t: seq<byte>, n: nat): seq<byte> { if n <= |t| then t[..n] else t }

  /** It is the longest beginning of at most n characters. */
  lemma TakeIs(t: seq<byte>, n: nat)
    ensures Take(t, n) <= t && |Take(t, n)| <= n && (|Take(t, n)| == n || Take(t, n) == t)
  {
  }

  /** strncmp(..., n) == 0 is equality of the first n characters. */
  method PrefixesEqual(m: seq<byte>, s: nat, n: seq<byte>, t: nat, count: nat) returns (r: bool)
    requires Terminated(m, s) && Terminated(n, t)
    ensures r <==> Take(Text(m, s), count) == Take(Text(n, t), count)
  {
    hide Text, Terminated, Take;
    var i, j, k := s, t, count;
    TextEnds(m, s);
    TextEnds(n, t);
    while k > 0 && m[i] != 0 && m[i] == n[j]
      invariant s <= i < |m| && t <= j < |n| && Terminated(m, i) && Terminated(n, j)
      invariant Take(Text(m, s), count) == Take(Text(n, t), count) <==> Take(Text(m, i), k) == Take(Text(n, j), k)
      decreases k
    {
      TextStep(m, i);
      TextStep(n, j);
      TakeStep(m[i], Text(m, i + 1), k);
      TakeStep(n[j], Text(n, j + 1), k);
      SameHead(m[i], Take(Text(m, i + 1), k - 1), Take(Text(n, j + 1), k - 1));
      i, j, k := i + 1, j + 1, k - 1;
    }
    if k == 0 {
      TakeNone(Text(m, i), Text(n, j));
      return true;
    }
    TakeDiffers(m, i, n, j, k);
    return m[i] == n[j];
  }

  lemma TakeNone(t: seq<byte>, u: seq<byte>)
    ensures Take(t, 0) == Take(u, 0)
  {
  }

  lemma TakeDiffers(m: seq<byte>, i: nat, n: seq<byte>, j: nat, k: nat)
    requires i < |m| && j < |n| && Terminated(m, i) && Terminated(n, j) && (m[i] == 0 || m[i] != n[j]) && k > 0
    ensures Take(Text(m, i), k) == Take(Text(n, j), k) <==> m[i] == n[j]
  {
    TextStep(m, i);
    TextStep(n, j);
    assert m[i] != 0 ==> Take(Text(m, i), k)[0] == m[i];
    assert n[j] != 0 ==> Take(Text(n, j), k)[0] == n[j];
  }

  lemma TakeStep(c: byte, t: seq<byte>, k: nat)
    requires k > 0
    ensures Take([c] + t, k) == [c] + Take(t, k - 1)
  {
  }

  // ---------------------------------------------------------------- pieces of memory

  /** The bytes at an offset. */
  predicate At(m: seq<byte>, p: nat, s: seq<byte>) { p + |s| <= |m| && m[p..p + |s|] == s }

  lemma AtParts(m: seq<byte>, p: nat, a: seq<byte>, b: seq<byte>)
    requires At(m, p, a + b)
    ensures At(m, p, a) && At(m, p + |a|, b)
  {
    assert m[p..p + |a|] == (a + b)[..|a|];
    assert m[p + |a|..p + |a| + |b|] == (a + b)[|a|..];
  }

  /** The first k characters of a string, when none of them is NUL, are the bytes themselves. */
  lemma {:induction false} TextTake(m: seq<byte>, p: nat, k: nat)
    requires p + k <= |m| && 0 !in m[p..p + k] && Terminated(m, p + k)
    ensures Terminated(m, p) && |Text(m, p)| >= k && Take(Text(m, p), k) == m[p..p + k]
    decreases k
  {
    if k > 0 {
      assert m[p] == m[p..p + k][0];
      assert m[p + 1..p + k] == m[p..p + k][1..];
      TextTake(m, p + 1, k - 1);
      assert m[p..p + k] == [m[p]] + m[p + 1..p + k];
      assert Text(m, p) == [m[p]] + Text(m, p + 1);
    }
  }

  // ---------------------------------------------------------------- alignment and words

  predicate Multiple4(n: nat) { n % 4 == 0 }

  lemma Multiples(a: nat, b: nat)
    requires Multiple4(a) && Multiple4(b)
    ensures Multiple4(a + b)
  {
  }

  /** align(n, 4) */
  function Align4(n: nat): (r: nat)
    ensures Multiple4(r) && n <= r < n + 4
  {
    (n + 3) / 4 * 4
  }

  function Blank(n: nat): (z: seq<byte>)
    ensures |z| == n && forall i :: 0 <= i < n ==> z[i] == 0
  {
    seq(n, _ => 0)
  }

  /** A 32-bit word in big-endian order. */
  function Word(n: nat): (w: seq<byte>)
    ensures |w| == 4
  {
    [n / 0x100_0000 % 256, n / 0x1_0000 % 256, n / 0x100 % 256, n % 256]
  }

  /** fdt32_to_cpu */
  function ReadWord(m: seq<byte>, p: nat): nat
    requires p + 4 <= |m|
  {
    var b0: nat, b1: nat, b2: nat, b3: nat := m[p], m[p + 1], m[p + 2], m[p + 3];
    b0 * 0x100_0000 + b1 * 0x1_0000 + b2 * 0x100 + b3
  }

  lemma ReadOfWord(m: seq<byte>, p: nat, n: nat)
    requires p + 4 <= |m| && m[p..p + 4] == Word(n) && n < 0x1_0000_0000
    ensures ReadWord(m, p) == n
  {
    var w := m[p..p + 4];
    assert m[p] == w[0] && m[p + 1] == w[1] && m[p + 2] == w[2] && m[p + 3] == w[3];
    BigEndian(n);
  }

  lemma BigEndian(n: nat)
    requires n < 0x1_0000_0000
    ensures n / 0x100_0000 % 256 * 0x100_0000 + n / 0x1_0000 % 256 * 0x1_0000 + n / 0x100 % 256 * 0x100 + n % 256 == n
  {
    assert n / 0x100 / 0x100 == n / 0x1_0000 && n / 0x1_0000 / 0x100 == n / 0x100_0000;
  }
}
