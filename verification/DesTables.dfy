/** The tables of cr_des.c, eight entries a row; behind the last entry the last row repeats its end. */
module DesTables {

  /** Entry c of a row. */
  function Row<T>(c: nat, r0: T, r1: T, r2: T, r3: T, r4: T, r5: T, r6: T, r7: T): T {
    if c < 4 then (if c < 2 then (if c == 0 then r0 else r1) else (if c == 2 then r2 else r3))
    else (if c < 6 then (if c == 4 then r4 else r5) else (if c == 6 then r6 else r7))
  }

  /** The initial permutation. */
  function InitialPermuteMap(i: nat): (r: nat)
    ensures r < 64
  {
    if i < 8 then Row(i, 57, 49, 41, 33, 25, 17, 9, 1)
    else if i < 16 then Row(i - 8, 59, 51, 43, 35, 27, 19, 11, 3)
    else if i < 24 then Row(i - 16, 61, 53, 45, 37, 29, 21, 13, 5)
    else if i < 32 then Row(i - 24, 63, 55, 47, 39, 31, 23, 15, 7)
    else if i < 40 then Row(i - 32, 56, 48, 40, 32, 24, 16, 8, 0)
    else if i < 48 then Row(i - 40, 58, 50, 42, 34, 26, 18, 10, 2)
    else if i < 56 then Row(i - 48, 60, 52, 44, 36, 28, 20, 12, 4)
    else Row(i - 56, 62, 54, 46, 38, 30, 22, 14, 6)
  }

  /** Swap of the halves and inverse of the initial permutation in one. */
  function FinalPermuteMap(i: nat): (r: nat)
    ensures r < 64
  {
    if i < 8 then Row(i, 7, 39, 15, 47, 23, 55, 31, 63)
    else if i < 16 then Row(i - 8, 6, 38, 14, 46, 22, 54, 30, 62)
    else if i < 24 then Row(i - 16, 5, 37, 13, 45, 21, 53, 29, 61)
    else if i < 32 then Row(i - 24, 4, 36, 12, 44, 20, 52, 28, 60)
    else if i < 40 then Row(i - 32, 3, 35, 11, 43, 19, 51, 27, 59)
    else if i < 48 then Row(i - 40, 2, 34, 10, 42, 18, 50, 26, 58)
    else if i < 56 then Row(i - 48, 1, 33, 9, 41, 17, 49, 25, 57)
    else Row(i - 56, 0, 32, 8, 40, 16, 48, 24, 56)
  }

  /** From 8-byte to 7-byte keys. */
  function Map8To7(i: nat): (r: nat)
    ensures r < 64
  {
    if i < 8 then Row(i, 0, 1, 2, 3, 4, 5, 6, 8)
    else if i < 16 then Row(i - 8, 9, 10, 11, 12, 13, 14, 16, 17)
    else if i < 24 then Row(i - 16, 18, 19, 20, 21, 22, 24, 25, 26)
    else if i < 32 then Row(i - 24, 27, 28, 29, 30, 32, 33, 34, 35)
    else if i < 40 then Row(i - 32, 36, 37, 38, 40, 41, 42, 43, 44)
    else if i < 48 then Row(i - 40, 45, 46, 48, 49, 50, 51, 52, 53)
    else Row(i - 48, 54, 56, 57, 58, 59, 60, 61, 62)
  }

  /** The key permutation. */
  function KeyPermuteMap(i: nat): (r: nat)
    ensures r < 56
  {
    if i < 8 then Row(i, 49, 42, 35, 28, 21, 14, 7, 0)
    else if i < 16 then Row(i - 8, 50, 43, 36, 29, 22, 15, 8, 1)
    else if i < 24 then Row(i - 16, 51, 44, 37, 30, 23, 16, 9, 2)
    else if i < 32 then Row(i - 24, 52, 45, 38, 31, 55, 48, 41, 34)
    else if i < 40 then Row(i - 32, 27, 20, 13, 6, 54, 47, 40, 33)
    else if i < 48 then Row(i - 40, 26, 19, 12, 5, 53, 46, 39, 32)
    else Row(i - 48, 25, 18, 11, 4, 24, 17, 10, 3)
  }

  /** From 56 to 48 key bits. */
  function KeyCompression(i: nat): (r: nat)
    ensures r < 56
  {
    if i < 8 then Row(i, 13, 16, 10, 23, 0, 4, 2, 27)
    else if i < 16 then Row(i - 8, 14, 5, 20, 9, 22, 18, 11, 3)
    else if i < 24 then Row(i - 16, 25, 7, 15, 6, 26, 19, 12, 1)
    else if i < 32 then Row(i - 24, 40, 51, 30, 36, 46, 54, 29, 39)
    else if i < 40 then Row(i - 32, 50, 44, 32, 47, 43, 48, 38, 55)
    else Row(i - 40, 33, 52, 45, 41, 49, 35, 28, 31)
  }

  /** From 32 to 48 data bits. */
  function DataExpansion(i: nat): (r: nat)
    ensures r < 32
  {
    if i < 8 then Row(i, 31, 0, 1, 2, 3, 4, 3, 4)
    else if i < 16 then Row(i - 8, 5, 6, 7, 8, 7, 8, 9, 10)
    else if i < 24 then Row(i - 16, 11, 12, 11, 12, 13, 14, 15, 16)
    else if i < 32 then Row(i - 24, 15, 16, 17, 18, 19, 20, 19, 20)
    else if i < 40 then Row(i - 32, 21, 22, 23, 24, 23, 24, 25, 26)
    else Row(i - 40, 27, 28, 27, 28, 29, 30, 31, 0)
  }

  /** The permutation behind the S-boxes. */
  function PBox(i: nat): (r: nat)
    ensures r < 32
  {
    if i < 8 then Row(i, 15, 6, 19, 20, 28, 11, 27, 16)
    else if i < 16 then Row(i - 8, 0, 14, 22, 25, 4, 17, 30, 9)
    else if i < 24 then Row(i - 16, 1, 7, 23, 13, 31, 26, 2, 8)
    else Row(i - 24, 18, 12, 29, 5, 21, 10, 3, 24)
  }

  /** Left rotations of the key halves before each round of encryption. */
  function KeyRotation(i: nat): (r: nat)
    ensures r < 3
  {
    if i < 8 then Row(i, 1, 1, 2, 2, 2, 2, 2, 2)
    else Row(i - 8, 1, 2, 2, 2, 2, 2, 2, 1)
  }

  /** Right rotations of the key halves before each round of decryption. */
  function KeyRotationRight(i: nat): (r: nat)
    ensures r < 3
  {
    if i < 8 then Row(i, 0, 1, 2, 2, 2, 2, 2, 2)
    else Row(i - 8, 1, 2, 2, 2, 2, 2, 2, 1)
  }

  /** S-box 0. */
  function SBox0(n: nat): (r: bv8)
    ensures r < 0x10
  {
    if n < 8 then Row(n, 14, 0, 4, 15, 13, 7, 1, 4)
    else if n < 16 then Row(n - 8, 2, 14, 15, 2, 11, 13, 8, 1)
    else if n < 24 then Row(n - 16, 3, 10, 10, 6, 6, 12, 12, 11)
    else if n < 32 then Row(n - 24, 5, 9, 9, 5, 0, 3, 7, 8)
    else if n < 40 then Row(n - 32, 4, 15, 1, 12, 14, 8, 8, 2)
    else if n < 48 then Row(n - 40, 13, 4, 6, 9, 2, 1, 11, 7)
    else if n < 56 then Row(n - 48, 15, 5, 12, 11, 9, 3, 7, 14)
    else Row(n - 56, 3, 10, 10, 0, 5, 6, 0, 13)
  }

  /** S-box 1. */
  function SBox1(n: nat): (r: bv8)
    ensures r < 0x10
  {
    if n < 8 then Row(n, 15, 3, 1, 13, 8, 4, 14, 7)
    else if n < 16 then Row(n - 8, 6, 15, 11, 2, 3, 8, 4, 14)
    else if n < 24 then Row(n - 16, 9, 12, 7, 0, 2, 1, 13, 10)
    else if n < 32 then Row(n - 24, 12, 6, 0, 9, 5, 11, 10, 5)
    else if n < 40 then Row(n - 32, 0, 13, 14, 8, 7, 10, 11, 1)
    else if n < 48 then Row(n - 40, 10, 3, 4, 15, 13, 4, 1, 2)
    else if n < 56 then Row(n - 48, 5, 11, 8, 6, 12, 7, 6, 12)
    else Row(n - 56, 9, 0, 3, 5, 2, 14, 15, 9)
  }

  /** S-box 2. */
  function SBox2(n: nat): (r: bv8)
    ensures r < 0x10
  {
    if n < 8 then Row(n, 10, 13, 0, 7, 9, 0, 14, 9)
    else if n < 16 then Row(n - 8, 6, 3, 3, 4, 15, 6, 5, 10)
    else if n < 24 then Row(n - 16, 1, 2, 13, 8, 12, 5, 7, 14)
    else if n < 32 then Row(n - 24, 11, 12, 4, 11, 2, 15, 8, 1)
    else if n < 40 then Row(n - 32, 13, 1, 6, 10, 4, 13, 9, 0)
    else if n < 48 then Row(n - 40, 8, 6, 15, 9, 3, 8, 0, 7)
    else if n < 56 then Row(n - 48, 11, 4, 1, 15, 2, 14, 12, 3)
    else Row(n - 56, 5, 11, 10, 5, 14, 2, 7, 12)
  }

  /** S-box 3. */
  function SBox3(n: nat): (r: bv8)
    ensures r < 0x10
  {
    if n < 8 then Row(n, 7, 13, 13, 8, 14, 11, 3, 5)
    else if n < 16 then Row(n - 8, 0, 6, 6, 15, 9, 0, 10, 3)
    else if n < 24 then Row(n - 16, 1, 4, 2, 7, 8, 2, 5, 12)
    else if n < 32 then Row(n - 24, 11, 1, 12, 10, 4, 14, 15, 9)
    else if n < 40 then Row(n - 32, 10, 3, 6, 15, 9, 0, 0, 6)
    else if n < 48 then Row(n - 40, 12, 10, 11, 1, 7, 13, 13, 8)
    else if n < 56 then Row(n - 48, 15, 9, 1, 4, 3, 5, 14, 11)
    else Row(n - 56, 5, 12, 2, 7, 8, 2, 4, 14)
  }

  /** S-box 4. */
  function SBox4(n: nat): (r: bv8)
    ensures r < 0x10
  {
    if n < 8 then Row(n, 2, 14, 12, 11, 4, 2, 1, 12)
    else if n < 16 then Row(n - 8, 7, 4, 10, 7, 11, 13, 6, 1)
    else if n < 24 then Row(n - 16, 8, 5, 5, 0, 3, 15, 15, 10)
    else if n < 32 then Row(n - 24, 13, 3, 0, 9, 14, 8, 9, 6)
    else if n < 40 then Row(n - 32, 4, 11, 2, 8, 1, 12, 11, 7)
    else if n < 48 then Row(n - 40, 10, 1, 13, 14, 7, 2, 8, 13)
    else if n < 56 then Row(n - 48, 15, 6, 9, 15, 12, 0, 5, 9)
    else Row(n - 56, 6, 10, 3, 4, 0, 5, 14, 3)
  }

  /** S-box 5. */
  function SBox5(n: nat): (r: bv8)
    ensures r < 0x10
  {
    if n < 8 then Row(n, 12, 10, 1, 15, 10, 4, 15, 2)
    else if n < 16 then Row(n - 8, 9, 7, 2, 12, 6, 9, 8, 5)
    else if n < 24 then Row(n - 16, 0, 6, 13, 1, 3, 13, 4, 14)
    else if n < 32 then Row(n - 24, 14, 0, 7, 11, 5, 3, 11, 8)
    else if n < 40 then Row(n - 32, 9, 4, 14, 3, 15, 2, 5, 12)
    else if n < 48 then Row(n - 40, 2, 9, 8, 5, 12, 15, 3, 10)
    else if n < 56 then Row(n - 48, 7, 11, 0, 14, 4, 1, 10, 7)
    else Row(n - 56, 1, 6, 13, 0, 11, 8, 6, 13)
  }

  /** S-box 6. */
  function SBox6(n: nat): (r: bv8)
    ensures r < 0x10
  {
    if n < 8 then Row(n, 4, 13, 11, 0, 2, 11, 14, 7)
    else if n < 16 then Row(n - 8, 15, 4, 0, 9, 8, 1, 13, 10)
    else if n < 24 then Row(n - 16, 3, 14, 12, 3, 9, 5, 7, 12)
    else if n < 32 then Row(n - 24, 5, 2, 10, 15, 6, 8, 1, 6)
    else if n < 40 then Row(n - 32, 1, 6, 4, 11, 11, 13, 13, 8)
    else if n < 48 then Row(n - 40, 12, 1, 3, 4, 7, 10, 14, 7)
    else if n < 56 then Row(n - 48, 10, 9, 15, 5, 6, 0, 8, 15)
    else Row(n - 56, 0, 14, 5, 2, 9, 3, 2, 12)
  }

  /** S-box 7. */
  function SBox7(n: nat): (r: bv8)
    ensures r < 0x10
  {
    if n < 8 then Row(n, 13, 1, 2, 15, 8, 13, 4, 8)
    else if n < 16 then Row(n - 8, 6, 10, 15, 3, 11, 7, 1, 4)
    else if n < 24 then Row(n - 16, 10, 12, 9, 5, 3, 6, 14, 11)
    else if n < 32 then Row(n - 24, 5, 0, 0, 14, 12, 9, 7, 2)
    else if n < 40 then Row(n - 32, 7, 2, 11, 1, 4, 14, 1, 7)
    else if n < 48 then Row(n - 40, 9, 4, 12, 10, 14, 8, 2, 13)
    else if n < 56 then Row(n - 48, 0, 15, 6, 12, 10, 9, 13, 0)
    else Row(n - 56, 15, 3, 3, 5, 5, 6, 8, 11)
  }

  /** SBox[i][n] */
  function SBox(i: nat, n: nat): (r: bv8)
    ensures r < 0x10
  {
    if i == 0 then SBox0(n) else if i == 1 then SBox1(n) else if i == 2 then SBox2(n) else if i == 3 then SBox3(n)
    else if i == 4 then SBox4(n) else if i == 5 then SBox5(n) else if i == 6 then SBox6(n) else SBox7(n)
  }

  /** A finally permuted block that is initially permuted again has its halves swapped, and back. */
  lemma PermutationsSwap(i: nat)
    requires i < 64
    ensures FinalPermuteMap(InitialPermuteMap(i)) == Opposite(i)
    ensures InitialPermuteMap(Opposite(FinalPermuteMap(i))) == i
  {
    FinalAfterInitial(i);
    InitialAfterFinal(i);
  }

  /** The place of bit i when the halves of a block are swapped. */
  function Opposite(i: nat): nat {
    if i < 32 then i + 32 else i - 32
  }

  lemma FinalAfterInitial(i: nat)
    requires i < 64
    ensures FinalPermuteMap(InitialPermuteMap(i)) == Opposite(i)
  {
  }

  lemma InitialAfterFinal(i: nat)
    requires i < 64
    ensures InitialPermuteMap(Opposite(FinalPermuteMap(i))) == i
  {
  }

  // ---------- the tables in the form of FIPS 46-3 ----------

  /** Each group of six bits is four bits of the half with their neighbours on both sides. */
  lemma ExpansionIs(i: nat)
    requires i < 48
    ensures DataExpansion(i) == (4 * (i / 6) + i % 6 + 31) % 32
  {
  }

  /** The initial permutation takes every eighth bit, the odd ones first, from the last byte to the first. */
  lemma InitialIs(i: nat)
    requires i < 64
    ensures InitialPermuteMap(i) == (if i < 32 then 57 + 2 * (i / 8) else 48 + 2 * (i / 8)) - 8 * (i % 8)
  {
  }

  /** Every eighth key bit, the parity bit, is left out. */
  lemma ParityIsDropped(i: nat)
    requires i < 56
    ensures Map8To7(i) == i + i / 7
  {
  }

  lemma LeftKeyHalf(i: nat)
    requires i < 28
    ensures Map8To7(KeyPermuteMap(i)) == 56 - 8 * (i % 8) + i / 8
  {
  }

  lemma RightKeyHalf(i: nat)
    requires i < 28
    ensures Map8To7(KeyPermuteMap(28 + i)) == if i < 24 then 62 - 8 * (i % 8) - i / 8 else 27 - 8 * (i - 24)
  {
  }

  /** The key halves turn by one place in rounds 1, 2, 9 and 16 and by two in all others. */
  lemma RotationIs(i: nat)
    requires i < 16
    ensures KeyRotation(i) == if i < 2 || i == 8 || i == 15 then 1 else 2
  {
  }

  /** No bit of the half is lost or doubled. */
  lemma PBoxIsPermutation(i: nat, j: nat)
    requires i < 32 && j < 32 && PBox(i) == PBox(j)
    ensures i == j
  {
  }

  /** Each half of a subkey consists of different bits of one half of the key. */
  lemma CompressionIsInjective(i: nat, j: nat)
    requires i < 48 && j < 48
    ensures (KeyCompression(i) < 28 <==> i < 24) && (KeyCompression(i) == KeyCompression(j) ==> i == j)
  {
  }
}
