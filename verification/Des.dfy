/** DES and triple DES on values, and why decryption undoes encryption (FIPS 46-3). */
module Des {
  import opened BlockCiphers
  import opened BitStrings
  import opened DesTables

  // ---------- key rotation ----------

  /** Where bit i of both 28-bit halves comes from when they are rotated left by n. */
  function LeftIndex(n: nat, i: nat): nat
    requires n <= 28
  {
    if i < 28 then (if i + n < 28 then i + n else i + n - 28)
    else if i < 56 then (if i + n < 56 then i + n else i + n - 28)
    else 0
  }

  function RightIndex(n: nat, i: nat): nat
    requires n <= 28
  {
    if i < 28 then (if i >= n then i - n else i + 28 - n)
    else if i < 56 then (if i >= 28 + n then i - n else i + 28 - n)
    else 0
  }

  function RotatedLeft(k: Bytes8, n: nat): (r: Bytes8)
    requires |k| == 7 && n <= 28
    ensures |r| == 7
  {
    Permuted(k, i => LeftIndex(n, i), 7)
  }

  function RotatedRight(k: Bytes8, n: nat): (r: Bytes8)
    requires |k| == 7 && n <= 28
    ensures |r| == 7
  {
    Permuted(k, i => RightIndex(n, i), 7)
  }

  lemma LeftBit(k: Bytes8, n: nat, i: nat)
    requires |k| == 7 && n <= 28 && i < 56
    ensures LeftIndex(n, i) < 56 && Bit(RotatedLeft(k, n), i) == Bit(k, LeftIndex(n, i))
  {
    hide Bit;
    PermutedBits(k, j => LeftIndex(n, j), 7, i);
  }

  lemma RightBit(k: Bytes8, n: nat, i: nat)
    requires |k| == 7 && n <= 28 && i < 56
    ensures RightIndex(n, i) < 56 && Bit(RotatedRight(k, n), i) == Bit(k, RightIndex(n, i))
  {
    hide Bit;
    PermutedBits(k, j => RightIndex(n, j), 7, i);
  }

  lemma LeftTwice(k: Bytes8, a: nat, b: nat)
    requires |k| == 7 && a + b <= 28
    ensures RotatedLeft(RotatedLeft(k, a), b) == RotatedLeft(k, a + b)
  {
    hide Bit, RotatedLeft;
    forall i | 0 <= i < 56 ensures Bit(RotatedLeft(RotatedLeft(k, a), b), i) == Bit(RotatedLeft(k, a + b), i) {
      LeftBit(RotatedLeft(k, a), b, i);
      LeftBit(k, a, LeftIndex(b, i));
      LeftBit(k, a + b, i);
    }
    SameBytes(RotatedLeft(RotatedLeft(k, a), b), RotatedLeft(k, a + b));
  }

  /** Turning right takes back what was turned left. */
  lemma RightAfterLeft(k: Bytes8, a: nat, b: nat)
    requires |k| == 7 && b <= a <= 28
    ensures RotatedRight(RotatedLeft(k, a), b) == RotatedLeft(k, a - b)
  {
    hide Bit, RotatedLeft, RotatedRight;
    forall i | 0 <= i < 56 ensures Bit(RotatedRight(RotatedLeft(k, a), b), i) == Bit(RotatedLeft(k, a - b), i) {
      RightBit(RotatedLeft(k, a), b, i);
      LeftBit(k, a, RightIndex(b, i));
      LeftBit(k, a - b, i);
    }
    SameBytes(RotatedRight(RotatedLeft(k, a), b), RotatedLeft(k, a - b));
  }

  /** 28 bits of rotation bring both halves back to the start. */
  lemma FullTurn(k: Bytes8)
    requires |k| == 7
    ensures RotatedLeft(k, 28) == k && RotatedLeft(k, 0) == k
  {
    hide Bit, RotatedLeft;
    forall i | 0 <= i < 56 ensures Bit(RotatedLeft(k, 28), i) == Bit(k, i) == Bit(RotatedLeft(k, 0), i) {
      LeftBit(k, 28, i);
      LeftBit(k, 0, i);
    }
    SameBytes(RotatedLeft(k, 28), k);
    SameBytes(RotatedLeft(k, 0), k);
  }

  // ---------- key schedule ----------

  /** Rotations done after n rounds of encryption or decryption. */
  function Shifts(n: nat): nat {
    if n == 0 then 0 else Shifts(n - 1) + KeyRotation(n - 1)
  }

  function RightShifts(n: nat): nat {
    if n == 0 then 0 else RightShifts(n - 1) + KeyRotationRight(n - 1)
  }

  /** Decryption meets the rotations of encryption in reverse order. */
  lemma ShiftsMirror(j: nat)
    requires j < 16
    ensures RightShifts(j + 1) <= 28 && Shifts(16 - j) == 28 - RightShifts(j + 1)
    ensures Shifts(j) <= Shifts(j + 1) <= 28
  {
    hide Shifts, RightShifts;
    LeftTotals(16 - j);
    LeftTotals(j);
    LeftTotals(j + 1);
    RightTotals(j + 1);
  }

  lemma LeftTotals(n: nat)
    requires n <= 16
    ensures Shifts(n) == if n <= 2 then n else if n <= 8 then 2 * n - 2 else if n < 16 then 2 * n - 3 else 28
  {
    assert Shifts(2) == 2 && Shifts(4) == 6 && Shifts(6) == 10 && Shifts(8) == 14;
    assert Shifts(10) == 17 && Shifts(12) == 21 && Shifts(14) == 25 && Shifts(16) == 28;
  }

  lemma RightTotals(n: nat)
    requires 1 <= n <= 16
    ensures RightShifts(n) == if n == 1 then 0 else if n == 16 then 27 else if n <= 8 then 2 * n - 3 else 2 * n - 4
  {
    assert RightShifts(2) == 1 && RightShifts(4) == 5 && RightShifts(6) == 9 && RightShifts(8) == 13;
    assert RightShifts(10) == 16 && RightShifts(12) == 20 && RightShifts(14) == 24 && RightShifts(16) == 27;
  }

  type Key = k: Bytes8 | |k| == 8 witness [0, 0, 0, 0, 0, 0, 0, 0]
  type Block = b: Bytes8 | |b| == 8 witness [0, 0, 0, 0, 0, 0, 0, 0]
  type Half = b: Bytes8 | |b| == 4 witness [0, 0, 0, 0]
  type Subkey = b: Bytes8 | |b| == 6 witness [0, 0, 0, 0, 0, 0]

  /** The 56 key bits in both halves before the first round. */
  function Halves(key: Key): (k: Bytes8)
    ensures |k| == 7
  {
    Permuted(Permuted(key, Map8To7, 7), KeyPermuteMap, 7)
  }

  function SubkeyAt(key: Key, shifts: nat): Subkey
    requires shifts <= 28
  {
    Permuted(RotatedLeft(Halves(key), shifts), KeyCompression, 6)
  }

  /** The 16 subkeys in the order of encryption. */
  function EncryptionKeys(key: Key): (ks: seq<Subkey>)
    ensures |ks| == 16
  {
    seq(16, i requires 0 <= i < 16 => ShiftsMirror(i); SubkeyAt(key, Shifts(i + 1)))
  }

  /** In decryption the halves turn right: RightShifts less than a full turn to the left. */
  function DecryptionKeys(key: Key): (ks: seq<Subkey>)
    ensures |ks| == 16
  {
    seq(16, i requires 0 <= i < 16 => ShiftsMirror(i); SubkeyAt(key, 28 - RightShifts(i + 1)))
  }

  lemma KeysAre(key: Key, i: nat)
    requires i < 16
    ensures Shifts(i) <= Shifts(i + 1) <= 28 && RightShifts(i + 1) <= 28
    ensures EncryptionKeys(key)[i] == Permuted(RotatedLeft(Halves(key), Shifts(i + 1)), KeyCompression, 6)
    ensures DecryptionKeys(key)[i] == Permuted(RotatedLeft(Halves(key), 28 - RightShifts(i + 1)), KeyCompression, 6)
  {
    hide Permuted, RotatedLeft, Halves, Shifts, RightShifts;
    ShiftsMirror(i);
  }

  ghost predicate Reversed(ks: seq<Subkey>, rs: seq<Subkey>) {
    |ks| == |rs| == 16 && forall i :: 0 <= i < 16 ==> rs[i] == ks[15 - i]
  }

  /** Right rotation by KeyRotationRight yields the subkeys in reverse order. */
  lemma DecryptionKeysAreReversed(key: Key)
    ensures Reversed(EncryptionKeys(key), DecryptionKeys(key)) && Reversed(DecryptionKeys(key), EncryptionKeys(key))
  {
    hide SubkeyAt, Shifts, RightShifts;
    var ks, rs := EncryptionKeys(key), DecryptionKeys(key);
    forall i | 0 <= i < 16 ensures rs[i] == ks[15 - i] {
      ShiftsMirror(i);
      assert Shifts(15 - i + 1) == 28 - RightShifts(i + 1);
    }
    forall i | 0 <= i < 16 ensures ks[i] == rs[15 - i] {
      ShiftsMirror(15 - i);
      assert Shifts(16 - (15 - i)) == 28 - RightShifts(15 - i + 1);
    }
  }

  // ---------- rounds ----------

  /** Six bits from bit p on, as a number. */
  function SixBits(b: Bytes8, p: nat, n: nat): (r: nat)
    requires n <= 6 && p + n <= 8 * |b|
  {
    if n == 0 then 0 else 2 * SixBits(b, p, n - 1) + if Bit(b, p + n - 1) then 1 else 0
  }

  /** The output of S-box i. */
  function Nibble(b: Subkey, i: nat): (r: bv8)
    requires i < 8
    ensures r < 0x10
  {
    SBox(i, SixBits(b, 6 * i, 6))
  }

  function Nibbles(high: bv8, low: bv8): bv8 {
    (high << 4) | low
  }

  function Substituted(b: Subkey): Half {
    [Nibbles(Nibble(b, 0), Nibble(b, 1)), Nibbles(Nibble(b, 2), Nibble(b, 3)),
     Nibbles(Nibble(b, 4), Nibble(b, 5)), Nibbles(Nibble(b, 6), Nibble(b, 7))]
  }

  /** The round function. */
  function F(r: Half, k: Subkey): Half {
    Permuted(Substituted(Xor(Permuted(r, DataExpansion, 6), k)), PBox, 4)
  }

  function Round(d: Block, k: Subkey): Block {
    d[4..] + Xor(d[..4], F(d[4..], k))
  }

  /** The data block after n rounds. */
  function State(ks: seq<Subkey>, d: Block, n: nat): Block
    requires n <= |ks|
  {
    if n == 0 then d else Round(State(ks, d, n - 1), ks[n - 1])
  }

  function Swap(d: Block): Block {
    d[4..] + d[..4]
  }

  /** Two rounds with the same subkey and the halves swapped in between cancel, whatever the round function. */
  lemma RoundInverts(d: Block, k: Subkey)
    ensures Round(Swap(Round(d, k)), k) == Swap(d)
  {
    hide F;
    var l, r := d[..4], d[4..];
    var x := F(r, k);
    var e := Round(d, k);
    assert e[..4] == r && e[4..] == Xor(l, x);
    var f := Swap(e);
    assert f[..4] == Xor(l, x) && f[4..] == r;
    XorTwice(l, x);
  }

  /** With the subkeys reversed, the rounds meet the swapped states in reverse order. */
  lemma {:induction false} RoundsReverse(ks: seq<Subkey>, rs: seq<Subkey>, d: Block, j: nat)
    requires Reversed(ks, rs) && j <= 16
    ensures State(rs, Swap(State(ks, d, 16)), j) == Swap(State(ks, d, 16 - j))
  {
    hide Round, Swap;
    if j > 0 {
      RoundsReverse(ks, rs, d, j - 1);
      assert rs[j - 1] == ks[16 - j];
      RoundInverts(State(ks, d, 16 - j), ks[16 - j]);
    }
  }

  function Crypted(ks: seq<Subkey>, src: Block): Block
    requires |ks| == 16
  {
    Permuted(State(ks, Permuted(src, InitialPermuteMap, 8), 16), FinalPermuteMap, 8)
  }

  lemma SwapBit(d: Block, i: nat)
    requires i < 64
    ensures Opposite(i) < 64 && Bit(Swap(d), i) == Bit(d, Opposite(i))
  {
    hide BitOf;
    if i < 32 {
      assert Swap(d)[i / 8] == d[(i + 32) / 8] && (i + 32) % 8 == i % 8;
    } else {
      assert Swap(d)[i / 8] == d[(i - 32) / 8] && (i - 32) % 8 == i % 8;
    }
  }

  /** The final permutation combines a swap with the inverse of the initial one. */
  lemma PermutationsInvert(d: Block)
    ensures Permuted(Permuted(d, FinalPermuteMap, 8), InitialPermuteMap, 8) == Swap(d)
    ensures Permuted(Swap(Permuted(d, InitialPermuteMap, 8)), FinalPermuteMap, 8) == d
  {
    hide Bit, Permuted, Swap, InitialPermuteMap, FinalPermuteMap;
    var f, p := Permuted(d, FinalPermuteMap, 8), Permuted(d, InitialPermuteMap, 8);
    forall i | 0 <= i < 64 ensures Bit(Permuted(f, InitialPermuteMap, 8), i) == Bit(Swap(d), i) {
      PermutationsSwap(i);
      PermutedBits(f, InitialPermuteMap, 8, i);
      PermutedBits(d, FinalPermuteMap, 8, InitialPermuteMap(i));
      SwapBit(d, i);
    }
    SameBytes(Permuted(f, InitialPermuteMap, 8), Swap(d));
    forall i | 0 <= i < 64 ensures Bit(Permuted(Swap(p), FinalPermuteMap, 8), i) == Bit(d, i) {
      PermutationsSwap(i);
      PermutedBits(Swap(p), FinalPermuteMap, 8, i);
      SwapBit(p, FinalPermuteMap(i));
      PermutedBits(d, InitialPermuteMap, 8, Opposite(FinalPermuteMap(i)));
    }
    SameBytes(Permuted(Swap(p), FinalPermuteMap, 8), d);
  }

  lemma CryptedInverts(ks: seq<Subkey>, rs: seq<Subkey>, src: Block)
    requires Reversed(ks, rs)
    ensures Crypted(rs, Crypted(ks, src)) == src
  {
    hide State, Permuted, Swap;
    var d := Permuted(src, InitialPermuteMap, 8);
    PermutationsInvert(State(ks, d, 16));
    RoundsReverse(ks, rs, d, 16);
    NoRounds(ks, d);
    PermutationsInvert(src);
  }

  lemma NoRounds(ks: seq<Subkey>, d: Block)
    ensures State(ks, d, 0) == d
  {
  }

  // ---------- the ciphers ----------

  function Encrypted(key: Key, b: Block): Block {
    Crypted(EncryptionKeys(key), b)
  }

  function Decrypted(key: Key, b: Block): Block {
    Crypted(DecryptionKeys(key), b)
  }

  /** cr_des_decode undoes cr_des_encode, and the other way round, for every key and block. */
  lemma DesInverts(key: Key, b: Block)
    ensures Decrypted(key, Encrypted(key, b)) == b
    ensures Encrypted(key, Decrypted(key, b)) == b
  {
    hide Crypted, EncryptionKeys, DecryptionKeys, Reversed;
    DecryptionKeysAreReversed(key);
    CryptedInverts(EncryptionKeys(key), DecryptionKeys(key), b);
    CryptedInverts(DecryptionKeys(key), EncryptionKeys(key), b);
  }

  /** cr_tdes2_encode and cr_tdes3_encode, with the keys they use in turn. */
  function TripleEncrypted(k1: Key, k2: Key, k3: Key, b: Block): Block {
    Encrypted(k3, Decrypted(k2, Encrypted(k1, b)))
  }

  function TripleDecrypted(k1: Key, k2: Key, k3: Key, b: Block): Block {
    Decrypted(k1, Encrypted(k2, Decrypted(k3, b)))
  }

  /** Both triple DES pairs invert. */
  lemma TripleDesInverts(k1: Key, k2: Key, k3: Key, b: Block)
    ensures TripleDecrypted(k1, k2, k3, TripleEncrypted(k1, k2, k3, b)) == b
  {
    hide Encrypted, Decrypted;
    var x := Encrypted(k1, b);
    var y := Decrypted(k2, x);
    DesInverts(k3, y);
    DesInverts(k2, x);
    DesInverts(k1, b);
  }

  // ---------- what a round and a subkey are, bit by bit (FIPS 46-3) ----------

  /** Bit i of what goes into the S-boxes: a bit of the expanded half plus a bit of the subkey. */
  predicate InputBit(r: Half, k: Subkey, i: nat)
    requires i < 48
  {
    Bit(r, DataExpansion(i)) != Bit(k, i)
  }

  /** The six bits that go into S-box j, as a number. */
  function BoxInput(r: Half, k: Subkey, j: nat): nat
    requires j < 8
  {
    BitValue(r, k, 6 * j, 32) + BitValue(r, k, 6 * j + 1, 16) + BitValue(r, k, 6 * j + 2, 8) +
    BitValue(r, k, 6 * j + 3, 4) + BitValue(r, k, 6 * j + 4, 2) + BitValue(r, k, 6 * j + 5, 1)
  }

  function BitValue(r: Half, k: Subkey, i: nat, weight: nat): nat
    requires i < 48
  {
    if InputBit(r, k, i) then weight else 0
  }

  lemma XorBit(a: Bytes8, b: Bytes8, q: nat)
    requires |a| == |b| && q < 8 * |a|
    ensures Bit(Xor(a, b), q) <==> Bit(a, q) != Bit(b, q)
  {
    hide BitOf;
    SumBit(a[q / 8], b[q / 8], q % 8);
  }

  lemma SumBit(a: bv8, b: bv8, k: nat)
    requires k < 8
    ensures BitOf(a ^ b, k) <==> BitOf(a, k) != BitOf(b, k)
  {
    if k < 4 { HighSumBit(a, b, k); } else { LowSumBit(a, b, k); }
  }

  lemma HighSumBit(a: bv8, b: bv8, k: nat)
    requires k < 4
    ensures BitOf(a ^ b, k) <==> BitOf(a, k) != BitOf(b, k)
  {
  }

  lemma LowSumBit(a: bv8, b: bv8, k: nat)
    requires 4 <= k < 8
    ensures BitOf(a ^ b, k) <==> BitOf(a, k) != BitOf(b, k)
  {
  }

  lemma SixBitsAre(b: Subkey, p: nat)
    requires p + 6 <= 48
    ensures SixBits(b, p, 6) == (if Bit(b, p) then 32 else 0) + (if Bit(b, p + 1) then 16 else 0)
      + (if Bit(b, p + 2) then 8 else 0) + (if Bit(b, p + 3) then 4 else 0)
      + (if Bit(b, p + 4) then 2 else 0) + (if Bit(b, p + 5) then 1 else 0)
  {
    hide Bit;
    assert SixBits(b, p, 2) == 2 * SixBits(b, p, 1) + if Bit(b, p + 1) then 1 else 0;
    assert SixBits(b, p, 4) == 2 * SixBits(b, p, 3) + if Bit(b, p + 3) then 1 else 0;
  }

  /** Bit i of the outputs of the S-boxes in a row. */
  lemma SubstitutedBit(b: Subkey, i: nat)
    requires i < 32
    ensures Bit(Substituted(b), i) <==> BitOf(Nibble(b, i / 4), 4 + i % 4)
  {
    hide Nibble, BitOf, Nibbles;
    var high, low := Nibble(b, 2 * (i / 8)), Nibble(b, 2 * (i / 8) + 1);
    assert Substituted(b)[i / 8] == Nibbles(high, low);
    NibblesBit(high, low, i % 8);
  }

  lemma NibblesBit(high: bv8, low: bv8, k: nat)
    requires k < 8 && high < 0x10 && low < 0x10
    ensures BitOf(Nibbles(high, low), k) <==> if k < 4 then BitOf(high, 4 + k) else BitOf(low, k)
  {
  }

  /** Bit i of the round function is bit PBox(i) of the outputs of the S-boxes. */
  lemma RoundFunctionBit(r: Half, k: Subkey, i: nat)
    requires i < 32
    ensures var j, n := PBox(i) / 4, PBox(i) % 4;
      Bit(F(r, k), i) <==> BitOf(SBox(j, BoxInput(r, k, j)), 4 + n)
  {
    hide Bit, BitOf, Permuted, Substituted, SBox, DataExpansion, PBox, Xor, SixBits;
    var e := Permuted(r, DataExpansion, 6);
    var x, j := Xor(e, k), PBox(i) / 4;
    PermutedBits(Substituted(x), PBox, 4, i);
    SubstitutedBit(x, PBox(i));
    SixBitsAre(x, 6 * j);
    forall q | 0 <= q < 48
      ensures Bit(x, q) == InputBit(r, k, q)
    {
      PermutedBits(r, DataExpansion, 6, q);
      XorBit(e, k, q);
    }
  }

  /** Key bit behind bit i of the subkey of round n: both halves turned left by the sum of the rotations so far. */
  function KeyBit(n: nat, i: nat): (q: nat)
    requires n < 16 && i < 48
    ensures q < 64
  {
    var c, s := KeyCompression(i), Turned(n);
    Map8To7(KeyPermuteMap(if c < 28 then (c + s) % 28 else 28 + (c - 28 + s) % 28))
  }

  /** The rotations up to round n: 1, 2, 4, 6, ..., 14, 15, 17, ..., 27, 28. */
  function Turned(n: nat): nat {
    if n == 0 then 1 else if n < 8 then 2 * n else if n < 15 then 2 * n - 1 else 28
  }

  lemma SubkeyBit(key: Key, n: nat, i: nat)
    requires n < 16 && i < 48
    ensures Bit(EncryptionKeys(key)[n], i) == Bit(key, KeyBit(n, i))
    ensures Bit(DecryptionKeys(key)[15 - n], i) == Bit(key, KeyBit(n, i))
  {
    hide Bit, Permuted, RotatedLeft, Halves, KeyCompression, KeyPermuteMap, Map8To7, Shifts, RightShifts, Reversed;
    ReversedAt(key, n);
    KeysAre(key, n);
    LeftTotals(n + 1);
    var s, c := Shifts(n + 1), KeyCompression(i);
    var h, k := Halves(key), Permuted(key, Map8To7, 7);
    PermutedBits(RotatedLeft(h, s), KeyCompression, 6, i);
    LeftBit(h, s, c);
    HalvesBit(key, LeftIndex(s, c));
  }

  lemma HalvesBit(key: Key, i: nat)
    requires i < 56
    ensures Bit(Halves(key), i) == Bit(key, Map8To7(KeyPermuteMap(i)))
  {
    hide Bit, Permuted, KeyPermuteMap, Map8To7;
    PermutedBits(Permuted(key, Map8To7, 7), KeyPermuteMap, 7, i);
    PermutedBits(key, Map8To7, 7, KeyPermuteMap(i));
  }

  lemma ReversedAt(key: Key, n: nat)
    requires n < 16
    ensures DecryptionKeys(key)[15 - n] == EncryptionKeys(key)[n]
  {
    DecryptionKeysAreReversed(key);
  }

  /** d lists the blocks between the rounds: the left half is the old right one, the right half gets the sum. */
  ghost predicate Rounds(ks: seq<Subkey>, d: seq<Block>, n: nat) {
    && n < |ks| && n + 1 < |d|
    && d[n + 1][..4] == d[n][4..] && d[n + 1][4..] == Xor(d[n][..4], F(d[n][4..], ks[n]))
  }

  lemma {:induction false} StatesAre(ks: seq<Subkey>, b: Block, m: nat) returns (d: seq<Block>)
    requires |ks| == 16 && m <= 16
    ensures |d| == m + 1 && d[0] == b && d[m] == State(ks, b, m) && forall n :: 0 <= n < m ==> Rounds(ks, d, n)
    decreases m
  {
    hide F;
    if m == 0 {
      d := [b];
    } else {
      var e := StatesAre(ks, b, m - 1);
      d := e + [State(ks, b, m)];
      forall n | 0 <= n < m
        ensures Rounds(ks, d, n)
      {
        if n + 1 < m { assert Rounds(ks, e, n); }
      }
    }
  }

  /**
    Encryption as FIPS 46-3 puts it: the initial permutation, sixteen rounds, and the final permutation, which
    also swaps the halves. Decryption is the same with the subkeys in reverse order.
    */
  lemma SixteenRounds(key: Key, b: Block) returns (d: seq<Block>, e: seq<Block>)
    ensures |d| == |e| == 17
    ensures forall n :: 0 <= n < 16 ==> Rounds(EncryptionKeys(key), d, n) && Rounds(DecryptionKeys(key), e, n)
    ensures forall i :: 0 <= i < 64 ==> Bit(d[0], i) == Bit(e[0], i) == Bit(b, InitialPermuteMap(i))
    ensures forall i :: 0 <= i < 64 ==>
      && Bit(Encrypted(key, b), i) == Bit(d[16], FinalPermuteMap(i))
      && Bit(Decrypted(key, b), i) == Bit(e[16], FinalPermuteMap(i))
  {
    hide Bit, Permuted, State, Rounds, EncryptionKeys, DecryptionKeys, InitialPermuteMap, FinalPermuteMap;
    var p := Permuted(b, InitialPermuteMap, 8);
    d := StatesAre(EncryptionKeys(key), p, 16);
    e := StatesAre(DecryptionKeys(key), p, 16);
    forall i | 0 <= i < 64
      ensures Bit(p, i) == Bit(b, InitialPermuteMap(i))
      ensures Bit(Encrypted(key, b), i) == Bit(d[16], FinalPermuteMap(i))
      ensures Bit(Decrypted(key, b), i) == Bit(e[16], FinalPermuteMap(i))
    {
      PermutedBits(b, InitialPermuteMap, 8, i);
      PermutedBits(d[16], FinalPermuteMap, 8, i);
      PermutedBits(e[16], FinalPermuteMap, 8, i);
    }
  }

  // ---------- the complementation law ----------

  lemma ComplementBit(s: Bytes8, q: nat)
    requires q < 8 * |s|
    ensures Bit(Complement(s), q) == !Bit(s, q)
  {
    MaskBit(s[q / 8], q % 8);
  }

  lemma MaskBit(b: bv8, k: nat)
    requires k < 8
    ensures BitOf(!b, k) == !BitOf(b, k)
  {
  }

  /** Rearranging bits and changing all of them may be done in either order. */
  lemma PermutedComplement(s: Bytes8, map_: nat -> nat, n: nat)
    requires InRange(map_, 8 * n, 8 * |s|)
    ensures Permuted(Complement(s), map_, n) == Complement(Permuted(s, map_, n))
  {
    hide Bit, Permuted, Complement;
    var p, c := Permuted(s, map_, n), Permuted(Complement(s), map_, n);
    forall i | 0 <= i < 8 * n
      ensures Bit(c, i) == Bit(Complement(p), i)
    {
      PermutedBits(s, map_, n, i);
      PermutedBits(Complement(s), map_, n, i);
      ComplementBit(s, map_(i));
      ComplementBit(p, i);
    }
    SameBytes(c, Complement(p));
  }

  lemma SubkeyComplement(key: Key, shifts: nat)
    requires shifts <= 28
    ensures SubkeyAt(Complement(key), shifts) == Complement(SubkeyAt(key, shifts))
  {
    hide Permuted, Complement;
    PermutedComplement(key, Map8To7, 7);
    PermutedComplement(Permuted(key, Map8To7, 7), KeyPermuteMap, 7);
    PermutedComplement(Halves(key), i => LeftIndex(shifts, i), 7);
    PermutedComplement(RotatedLeft(Halves(key), shifts), KeyCompression, 6);
  }

  /** The subkey is added to the expanded half, so changing every bit of both changes nothing. */
  lemma RoundFunctionComplement(r: Half, k: Subkey)
    ensures F(Complement(r), Complement(k)) == F(r, k)
  {
    hide Permuted, Complement, Substituted;
    PermutedComplement(r, DataExpansion, 6);
    XorComplement(Permuted(r, DataExpansion, 6), k);
  }

  lemma RoundComplement(d: Block, k: Subkey)
    ensures Round(Complement(d), Complement(k)) == Complement(Round(d, k))
  {
    hide F;
    RoundFunctionComplement(d[4..], k);
    assert Complement(d)[4..] == Complement(d[4..]) && Complement(d)[..4] == Complement(d[..4]);
    XorComplement(d[..4], F(d[4..], k));
    var r, x := d[4..], Xor(d[..4], F(d[4..], k));
    assert Complement(r + x) == Complement(r) + Complement(x);
  }

  ghost predicate Complemented(ks: seq<Subkey>, cs: seq<Subkey>) {
    |ks| == |cs| == 16 && forall i :: 0 <= i < 16 ==> cs[i] == Complement(ks[i])
  }

  lemma KeysComplement(key: Key)
    ensures Complemented(EncryptionKeys(key), EncryptionKeys(Complement(key)))
    ensures Complemented(DecryptionKeys(key), DecryptionKeys(Complement(key)))
  {
    hide SubkeyAt, Shifts, RightShifts, Complement;
    forall i | 0 <= i < 16
      ensures EncryptionKeys(Complement(key))[i] == Complement(EncryptionKeys(key)[i])
      ensures DecryptionKeys(Complement(key))[i] == Complement(DecryptionKeys(key)[i])
    {
      ShiftsMirror(i);
      SubkeyComplement(key, Shifts(i + 1));
      SubkeyComplement(key, 28 - RightShifts(i + 1));
    }
  }

  lemma {:induction false} StateComplement(ks: seq<Subkey>, cs: seq<Subkey>, d: Block, n: nat)
    requires Complemented(ks, cs) && n <= 16
    ensures State(cs, Complement(d), n) == Complement(State(ks, d, n))
  {
    hide Round, Complement;
    if n > 0 {
      StateComplement(ks, cs, d, n - 1);
      RoundComplement(State(ks, d, n - 1), ks[n - 1]);
    }
  }

  lemma CryptedComplement(ks: seq<Subkey>, cs: seq<Subkey>, b: Block)
    requires Complemented(ks, cs)
    ensures Crypted(cs, Complement(b)) == Complement(Crypted(ks, b))
  {
    hide State, Permuted, Complement;
    PermutedComplement(b, InitialPermuteMap, 8);
    StateComplement(ks, cs, Permuted(b, InitialPermuteMap, 8), 16);
    PermutedComplement(State(ks, Permuted(b, InitialPermuteMap, 8), 16), FinalPermuteMap, 8);
  }

  /** With every bit of key and block changed, every bit of the result changes. */
  lemma ComplementationLaw(key: Key, b: Block)
    ensures Encrypted(Complement(key), Complement(b)) == Complement(Encrypted(key, b))
    ensures Decrypted(Complement(key), Complement(b)) == Complement(Decrypted(key, b))
  {
    hide Crypted, EncryptionKeys, DecryptionKeys, Complemented, Complement;
    KeysComplement(key);
    CryptedComplement(EncryptionKeys(key), EncryptionKeys(Complement(key)), b);
    CryptedComplement(DecryptionKeys(key), DecryptionKeys(Complement(key)), b);
  }

  lemma TripleComplementationLaw(k1: Key, k2: Key, k3: Key, b: Block)
    ensures TripleEncrypted(Complement(k1), Complement(k2), Complement(k3), Complement(b))
         == Complement(TripleEncrypted(k1, k2, k3, b))
    ensures TripleDecrypted(Complement(k1), Complement(k2), Complement(k3), Complement(b))
         == Complement(TripleDecrypted(k1, k2, k3, b))
  {
    hide Encrypted, Decrypted, Complement;
    ComplementationLaw(k1, b);
    ComplementationLaw(k2, Encrypted(k1, b));
    ComplementationLaw(k3, Decrypted(k2, Encrypted(k1, b)));
    ComplementationLaw(k3, b);
    ComplementationLaw(k2, Decrypted(k3, b));
    ComplementationLaw(k1, Encrypted(k2, Decrypted(k3, b)));
  }

  /** Where two neighbouring keys are equal, triple DES is single DES with the third. */
  lemma TripleCollapses(k: Key, j: Key, b: Block)
    ensures TripleEncrypted(k, k, j, b) == Encrypted(j, b) && TripleEncrypted(j, k, k, b) == Encrypted(j, b)
    ensures TripleDecrypted(k, k, j, b) == Decrypted(j, b) && TripleDecrypted(j, k, k, b) == Decrypted(j, b)
  {
    hide Encrypted, Decrypted;
    DesInverts(k, b);
    DesInverts(k, Encrypted(j, b));
    DesInverts(k, Decrypted(j, b));
  }
}
