/** Bytes, 16-bit words and the buffer primitives the C code builds on. */
module Bytes {

  type byte = x: int | 0 <= x < 0x100
  type word = x: int | 0 <= x < 0x1_0000

  // MAX_BUFFER_SIZE
  const BUFFER_SIZE := 0x1_0000

  /** Assignment to a uint16. */
  function Wrap16(x: int): word {
    x % BUFFER_SIZE
  }

  lemma WrapFits(x: word)
    ensures Wrap16(x) == x
  {
  }

  lemma WrapAdd(x: int, y: int)
    ensures Wrap16(Wrap16(x) + y) == Wrap16(x + y)
  {
  }

  /** end_swap16 on a little-endian machine. */
  function EndSwap16(x: word): (r: word) {
    x % 0x100 * 0x100 + x / 0x100
  }

  lemma EndSwap16Involution(x: word)
    ensures EndSwap16(EndSwap16(x)) == x
  {
    var hi, lo := x / 0x100, x % 0x100;
    assert (lo * 0x100 + hi) % 0x100 == hi && (lo * 0x100 + hi) / 0x100 == lo;
  }

  /** Only a word of two equal bytes is left alone. */
  lemma EndSwap16Fixed(x: word)
    ensures EndSwap16(x) == x <==> x / 0x100 == x % 0x100
  {
    assert EndSwap16(x) / 0x100 == x % 0x100 && EndSwap16(x) % 0x100 == x / 0x100;
  }

  /** A little-endian 16-bit load. */
  function Load16(b: seq<byte>, p: nat): (r: word)
    requires p + 1 < |b|
  {
    (b[p] as int) + 0x100 * (b[p + 1] as int)
  }

  /** The 16-bit operand at p as the code generator lays it out: most significant byte first. */
  function Word(b: seq<byte>, p: nat): (r: word)
    requires p + 1 < |b|
  {
    0x100 * (b[p] as int) + (b[p + 1] as int)
  }

  /** b with operand v at p. */
  function WithWord(b: seq<byte>, p: nat, v: word): (r: seq<byte>)
    requires p + 1 < |b|
    ensures |r| == |b| && Word(r, p) == v
    ensures forall q :: 0 <= q < |b| && q != p && q != p + 1 ==> r[q] == b[q]
  {
    b[p := v / 0x100][p + 1 := v % 0x100]
  }

  /** Operands are read and written through little-endian 16-bit accesses and end_swap16. */
  lemma SwappedAccess(b: seq<byte>, p: nat, v: word)
    requires p + 1 < |b|
    ensures EndSwap16(Load16(b, p)) == Word(b, p)
    ensures EndSwap16(v) % 0x100 == v / 0x100 && EndSwap16(v) / 0x100 == v % 0x100
    ensures Load16(WithWord(b, p, v), p) == EndSwap16(v)
  {
    assert Load16(b, p) % 0x100 == b[p] && Load16(b, p) / 0x100 == b[p + 1];
  }

  lemma WithWordElsewhere(b: seq<byte>, p: nat, v: word, lo: nat, hi: nat)
    requires p + 1 < |b| && lo <= hi <= |b| && (hi <= p || p + 2 <= lo)
    ensures WithWord(b, p, v)[lo..hi] == b[lo..hi]
    ensures lo + 2 <= hi ==> Word(WithWord(b, p, v), lo) == Word(b, lo)
  {
  }

  lemma WithWordFront(b: seq<byte>, p: nat, v: word, n: nat)
    requires p + 1 < n <= |b|
    ensures WithWord(b, p, v)[..n] == WithWord(b[..n], p, v) && Word(b[..n], p) == Word(b, p)
  {
  }

  /** *(uint16 *)(a + p) = end_swap16(v) */
  method StoreWord(a: array<byte>, p: nat, v: word)
    requires p + 1 < a.Length
    modifies a
    ensures a[..] == WithWord(old(a[..]), p, v)
  {
    SwappedAccess(a[..], p, v);
    var s := EndSwap16(v);
    a[p], a[p + 1] := s % 0x100, s / 0x100;
  }

  lemma SameSuffix<T>(b: seq<T>, c: seq<T>, lo: nat, hi: nat)
    requires lo <= hi <= |b| == |c| && b[lo..] == c[lo..]
    ensures b[lo..hi] == c[lo..hi] && b[hi..] == c[hi..]
  {
    assert b[lo..hi] == b[lo..][..hi - lo] && c[lo..hi] == c[lo..][..hi - lo];
    assert b[hi..] == b[lo..][hi - lo..] && c[hi..] == c[lo..][hi - lo..];
  }

  lemma SamePrefix<T>(b: seq<T>, c: seq<T>, n: nat, lo: nat, hi: nat)
    requires lo <= hi <= n <= |b| == |c| && b[..n] == c[..n]
    ensures b[lo..hi] == c[lo..hi]
  {
    assert b[lo..hi] == b[..n][lo..hi] && c[lo..hi] == c[..n][lo..hi];
  }

  /** b after memmove(b + dst, b + src, n) with dst at or below src. */
  function Moved<T>(b: seq<T>, dst: nat, src: nat, n: nat): (r: seq<T>)
    requires dst <= src && src + n <= |b|
    ensures |r| == |b|
    ensures forall q :: 0 <= q < |b| ==> r[q] == if dst <= q < dst + n then b[q + src - dst] else b[q]
  {
    b[..dst] + b[src..src + n] + b[dst + n..]
  }

  lemma MovedSlices<T>(b: seq<T>, dst: nat, src: nat, n: nat, m: nat)
    requires dst <= src && src + n <= |b| && m <= n
    ensures Moved(b, dst, src, n)[..dst] == b[..dst]
    ensures Moved(b, dst, src, n)[dst..dst + m] == b[src..src + m]
  {
  }

  lemma MovedRange<T>(b: seq<T>, dst: nat, src: nat, n: nat, lo: nat, hi: nat)
    requires dst <= src && src + n <= |b| && lo <= hi <= n
    ensures Moved(b, dst, src, n)[dst + lo..dst + hi] == b[src + lo..src + hi]
  {
    var r := Moved(b, dst, src, n);
    var rs, bs := r[dst + lo..dst + hi], b[src + lo..src + hi];
    forall q | 0 <= q < |rs| ensures rs[q] == bs[q] {
      assert r[dst + lo + q] == b[src + lo + q];
    }
  }

  lemma MovedElsewhere<T>(b: seq<T>, dst: nat, src: nat, n: nat, lo: nat, hi: nat)
    requires dst <= src && src + n <= |b| && lo <= hi <= |b| && (hi <= dst || dst + n <= lo)
    ensures Moved(b, dst, src, n)[lo..hi] == b[lo..hi]
  {
    var r := Moved(b, dst, src, n);
    forall q | 0 <= q < hi - lo ensures r[lo..hi][q] == b[lo..hi][q] {
      assert r[lo + q] == b[lo + q];
    }
  }

  /** memmove towards lower addresses. */
  method MoveDown<T>(a: array<T>, dst: nat, src: nat, n: nat)
    requires dst <= src && src + n <= a.Length
    modifies a
    ensures a[..] == Moved(old(a[..]), dst, src, n)
  {
    ghost var was := a[..];
    for k := 0 to n
      invariant forall q :: dst <= q < dst + k ==> a[q] == was[q + (src - dst)]
      invariant forall q :: 0 <= q < dst || dst + k <= q < a.Length ==> a[q] == was[q]
    {
      assert a[src + k] == was[dst + k + (src - dst)];
      a[dst + k] := a[src + k];
    }
    assert forall q :: 0 <= q < a.Length ==> a[..][q] == Moved(was, dst, src, n)[q];
  }

  /** memcpy of s to a + p */
  method CopyIn<T>(a: array<T>, p: nat, s: seq<T>)
    requires p + |s| <= a.Length
    modifies a
    ensures a[..p] == old(a[..p]) && a[p..p + |s|] == s && a[p + |s|..] == old(a[p + |s|..])
    ensures a[..p + |s|] == old(a[..p]) + s
  {
    for k := 0 to |s|
      invariant a[..p] == old(a[..p]) && a[p..p + k] == s[..k] && a[p + |s|..] == old(a[p + |s|..])
    {
      a[p + k] := s[k];
    }
  }

  // ---------- length octets ----------

  /** Bytes as a number, highest first. */
  function BigEndian(b: seq<byte>): nat {
    if b == [] then 0 else 0x100 * BigEndian(b[..|b| - 1]) + b[|b| - 1]
  }

  /** How many octets the length at the head of b takes in the definite form of section 8.1.3 of X.690. */
  function OctetsOf(b: seq<byte>): nat
    requires b != []
  {
    if b[0] < 0x80 then 1 else 1 + (b[0] - 0x80)
  }

  /** The length they stand for: the first octet itself, or the number in the octets that it counts. */
  function DefiniteLength(b: seq<byte>): nat
    requires b != [] && OctetsOf(b) <= |b|
  {
    if b[0] < 0x80 then b[0] else BigEndian(b[1..OctetsOf(b)])
  }

  lemma SingleOctet(a: byte)
    requires a < 0x80
    ensures OctetsOf([a]) == 1 && DefiniteLength([a]) == a
  {
  }

  lemma OneOctet(a: byte)
    ensures OctetsOf([0x81, a]) == 2 && DefiniteLength([0x81, a]) == a
  {
    assert [0x81, a][1..2] == [a];
    assert BigEndian([a]) == 0x100 * BigEndian([]) + a;
  }

  lemma TwoOctets(a: byte, b: byte)
    ensures OctetsOf([0x82, a, b]) == 3 && DefiniteLength([0x82, a, b]) == 0x100 * a as int + b as int
  {
    assert [0x82, a, b][1..3] == [a, b] && [a, b][..1] == [a];
    assert BigEndian([a]) == 0x100 * BigEndian([]) + a;
    assert BigEndian([a, b]) == 0x100 * BigEndian([a]) + b;
  }
}
