/** Block ciphers as the registry of cr_crypt.c sees them. */
module BlockCiphers {

  type Bytes8 = seq<bv8>

  /** One line of the encoder table together with the same line of the decoder table. */
  datatype Codec = Codec(bsize: nat, encode: (Bytes8, Bytes8) -> Bytes8, decode: (Bytes8, Bytes8) -> Bytes8)

  /** The block sizes of the registry; the last line of both tables has size 0 and no cipher. */
  predicate ValidCodec(c: Codec) {
    c.bsize == 8 || c.bsize == 16 || c.bsize == 0
  }

  /** With this key, blocks stay blocks and the decoder undoes the encoder. */
  ghost predicate Inverts(c: Codec, key: Bytes8) {
    && (forall b: Bytes8 :: |b| == c.bsize ==> |c.encode(key, b)| == c.bsize && |c.decode(key, b)| == c.bsize)
    && (forall b: Bytes8 :: |b| == c.bsize ==> c.decode(key, c.encode(key, b)) == b)
  }

  /** Blocks stay blocks. */
  ghost predicate KeepsSize(c: Codec, key: Bytes8) {
    forall b: Bytes8 :: |b| == c.bsize ==> |c.encode(key, b)| == c.bsize && |c.decode(key, b)| == c.bsize
  }

  function Xor(a: Bytes8, b: Bytes8): (r: Bytes8)
    requires |a| == |b|
    ensures |r| == |a| && forall q :: 0 <= q < |r| ==> r[q] == a[q] ^ b[q]
  {
    seq(|a|, q requires 0 <= q < |a| => a[q] ^ b[q])
  }

  lemma XorTwice(a: Bytes8, b: Bytes8)
    requires |a| == |b|
    ensures Xor(Xor(a, b), b) == a
  {
    forall q | 0 <= q < |a| ensures Xor(Xor(a, b), b)[q] == a[q] {
      SameBits(a[q], b[q]);
    }
  }

  lemma SameBits(x: bv8, y: bv8)
    ensures (x ^ y) ^ y == x
  {
  }

  /** Every bit of a byte string changed. */
  function Complement(a: Bytes8): (r: Bytes8)
    ensures |r| == |a|
  {
    seq(|a|, q requires 0 <= q < |a| => !a[q])
  }

  lemma ComplementAt(a: Bytes8, q: nat)
    requires q < |a|
    ensures Complement(a)[q] == !a[q]
  {
  }

  lemma XorAt(a: Bytes8, b: Bytes8, q: nat)
    requires |a| == |b| && q < |a|
    ensures Xor(a, b)[q] == a[q] ^ b[q]
  {
  }

  lemma ComplementedPlace(a: Bytes8, b: Bytes8, q: nat)
    requires |a| == |b| && q < |a|
    ensures Xor(Complement(a), Complement(b))[q] == Xor(a, b)[q]
    ensures Xor(Complement(a), b)[q] == Complement(Xor(a, b))[q]
  {
    hide *;
    ComplementAt(a, q);
    ComplementAt(b, q);
    ComplementAt(Xor(a, b), q);
    XorAt(a, b, q);
    XorAt(Complement(a), b, q);
    XorAt(Complement(a), Complement(b), q);
    ComplementBits(a[q], b[q]);
  }

  /** Changing both summands leaves a sum alone, changing one changes it. */
  lemma XorComplement(a: Bytes8, b: Bytes8)
    requires |a| == |b|
    ensures Xor(Complement(a), Complement(b)) == Xor(a, b)
    ensures Xor(Complement(a), b) == Complement(Xor(a, b))
  {
    hide *;
    forall q | 0 <= q < |a|
      ensures Xor(Complement(a), Complement(b))[q] == Xor(a, b)[q]
      ensures Xor(Complement(a), b)[q] == Complement(Xor(a, b))[q]
    {
      ComplementedPlace(a, b, q);
    }
  }

  lemma ComplementBits(x: bv8, y: bv8)
    ensures (!x) ^ (!y) == x ^ y && (!x) ^ y == !(x ^ y)
  {
  }
}
