/** Byte strings as strings of bits, highest bit first: GETBIT, SETBIT and CLRBIT of cr_des.c. */
module BitStrings {
  import opened BlockCiphers

  /** 0x01 << (7 - k) */
  function Mask(k: nat): bv8
    requires k < 8
  {
    if k == 0 then 0x80 else if k == 1 then 0x40 else if k == 2 then 0x20 else if k == 3 then 0x10
    else if k == 4 then 0x08 else if k == 5 then 0x04 else if k == 6 then 0x02 else 0x01
  }

  /** Bit k of a byte. */
  predicate BitOf(b: bv8, k: nat)
    requires k < 8
  {
    b & Mask(k) != 0
  }

  /** GETBIT */
  predicate Bit(s: Bytes8, q: nat)
    requires q < 8 * |s|
  {
    BitOf(s[q / 8], q % 8)
  }

  /** The first bit of a byte is its highest. */
  lemma BitWeights(b: bv8)
    ensures b == (if BitOf(b, 0) then 0x80 else 0) + (if BitOf(b, 1) then 0x40 else 0)
               + (if BitOf(b, 2) then 0x20 else 0) + (if BitOf(b, 3) then 0x10 else 0)
               + (if BitOf(b, 4) then 0x08 else 0) + (if BitOf(b, 5) then 0x04 else 0)
               + (if BitOf(b, 6) then 0x02 else 0) + (if BitOf(b, 7) then 0x01 else 0)
  {
  }

  lemma MasksDiffer(b: bv8, k: nat, m: nat)
    requires k < 8 && m < 8
    ensures BitOf(b | Mask(k), m) <==> m == k || BitOf(b, m)
    ensures BitOf(b & !Mask(k), m) <==> m != k && BitOf(b, m)
  {
  }

  lemma SameByte(a: bv8, b: bv8)
    requires forall k :: 0 <= k < 8 ==> BitOf(a, k) == BitOf(b, k)
    ensures a == b
  {
    assert BitOf(a, 0) == BitOf(b, 0) && BitOf(a, 1) == BitOf(b, 1);
    assert BitOf(a, 2) == BitOf(b, 2) && BitOf(a, 3) == BitOf(b, 3);
    assert BitOf(a, 4) == BitOf(b, 4) && BitOf(a, 5) == BitOf(b, 5);
    assert BitOf(a, 6) == BitOf(b, 6) && BitOf(a, 7) == BitOf(b, 7);
  }

  /** Byte strings are determined by their bits. */
  lemma SameBytes(a: Bytes8, b: Bytes8)
    requires |a| == |b| && forall q :: 0 <= q < 8 * |a| ==> Bit(a, q) == Bit(b, q)
    ensures a == b
  {
    hide BitOf;
    forall j | 0 <= j < |a| ensures a[j] == b[j] {
      forall k | 0 <= k < 8 ensures BitOf(a[j], k) == BitOf(b[j], k) {
        ByteIndex(j, k);
        assert Bit(a, 8 * j + k) == Bit(b, 8 * j + k);
      }
      SameByte(a[j], b[j]);
    }
  }

  lemma ByteIndex(j: nat, k: nat)
    requires k < 8
    ensures (8 * j + k) / 8 == j && (8 * j + k) % 8 == k
  {
  }

  function ByteOf(b: seq<bool>): bv8
    requires |b| == 8
  {
    (if b[0] then 0x80 else 0) | (if b[1] then 0x40 else 0) | (if b[2] then 0x20 else 0) | (if b[3] then 0x10 else 0) |
    (if b[4] then 0x08 else 0) | (if b[5] then 0x04 else 0) | (if b[6] then 0x02 else 0) | (if b[7] then 0x01 else 0)
  }

  lemma ByteOfBits(b: seq<bool>, k: nat)
    requires |b| == 8 && k < 8
    ensures BitOf(ByteOf(b), k) == b[k]
  {
  }

  /** SETBIT on an array. */
  method SetBit(a: array<bv8>, q: nat)
    requires q < 8 * a.Length
    modifies a
    ensures forall p :: 0 <= p < 8 * a.Length ==> Bit(a[..], p) == (p == q || Bit(old(a[..]), p))
  {
    hide BitOf, Mask;
    ghost var was := a[..];
    var b := a[q / 8] | Mask(q % 8);
    a[q / 8] := b;
    assert a[..] == was[q / 8 := b];
    forall p | 0 <= p < 8 * a.Length ensures Bit(a[..], p) == (p == q || Bit(was, p)) {
      MasksDiffer(was[q / 8], q % 8, p % 8);
    }
  }

  /** CLRBIT on an array. */
  method ClearBit(a: array<bv8>, q: nat)
    requires q < 8 * a.Length
    modifies a
    ensures forall p :: 0 <= p < 8 * a.Length ==> Bit(a[..], p) == (p != q && Bit(old(a[..]), p))
  {
    hide BitOf, Mask;
    ghost var was := a[..];
    var b := a[q / 8] & !Mask(q % 8);
    a[q / 8] := b;
    assert a[..] == was[q / 8 := b];
    forall p | 0 <= p < 8 * a.Length ensures Bit(a[..], p) == (p != q && Bit(was, p)) {
      MasksDiffer(was[q / 8], q % 8, p % 8);
    }
  }

  // ---------- permutations ----------

  /** The first n entries of a map name one of so many bits. */
  ghost predicate InRange(map_: nat -> nat, n: nat, bits: nat) {
    forall i :: 0 <= i < n ==> map_(i) < bits
  }

  /** The rearranged bits, packed into n bytes. */
  function Permuted(src: Bytes8, map_: nat -> nat, n: nat): (dst: Bytes8)
    requires InRange(map_, 8 * n, 8 * |src|)
    ensures |dst| == n
  {
    seq(n, j requires 0 <= j < n => ByteOf(Mapped(src, map_, n, j)))
  }

  /** The bits of byte j of a permuted string. */
  function Mapped(src: Bytes8, map_: nat -> nat, n: nat, j: nat): (b: seq<bool>)
    requires InRange(map_, 8 * n, 8 * |src|) && j < n
    ensures |b| == 8
  {
    seq(8, k requires 0 <= k < 8 => assert map_(8 * j + k) < 8 * |src|; Bit(src, map_(8 * j + k)))
  }

  lemma PermutedBits(src: Bytes8, map_: nat -> nat, n: nat, i: nat)
    requires InRange(map_, 8 * n, 8 * |src|) && i < 8 * n
    ensures map_(i) < 8 * |src| && Bit(Permuted(src, map_, n), i) == Bit(src, map_(i))
  {
    hide Bit, ByteOf, BitOf;
    var j, k := i / 8, i % 8;
    ByteOfBits(Mapped(src, map_, n, j), k);
    BitIs(Permuted(src, map_, n), i);
    assert 8 * j + k == i;
  }

  lemma BitIs(s: Bytes8, q: nat)
    requires q < 8 * |s|
    ensures Bit(s, q) == BitOf(s[q / 8], q % 8)
  {
  }

  /** Permute: dst is cleared, then every bit whose source bit is set is set. */
  method Permute(dst: array<bv8>, src: Bytes8, map_: nat -> nat, n: nat)
    requires dst.Length == n && InRange(map_, 8 * n, 8 * |src|)
    modifies dst
    ensures dst[..] == Permuted(src, map_, n)
  {
    hide Bit, Permuted;
    for i := 0 to n
      invariant forall k :: 0 <= k < i ==> dst[k] == 0
    {
      dst[i] := 0;
    }
    ZeroBits(dst[..]);
    for i := 0 to 8 * n
      invariant forall q :: 0 <= q < 8 * n ==> Bit(dst[..], q) == (q < i && Bit(src, map_(q)))
    {
      if Bit(src, map_(i)) {
        SetBit(dst, i);
      }
    }
    forall q | 0 <= q < 8 * n ensures Bit(dst[..], q) == Bit(Permuted(src, map_, n), q) {
      PermutedBits(src, map_, n, q);
    }
    SameBytes(dst[..], Permuted(src, map_, n));
  }

  lemma ZeroBits(s: Bytes8)
    requires forall k :: 0 <= k < |s| ==> s[k] == 0
    ensures forall q :: 0 <= q < 8 * |s| ==> !Bit(s, q)
  {
  }
}
