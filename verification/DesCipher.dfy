/** The routines of cr_des.c on byte arrays, against the functions of Des. */
module DesCipher {
  import opened BlockCiphers
  import opened BitStrings
  import opened DesTables
  import opened Des

  // ---------- key rotation ----------

  /** A byte shifted left that takes in the top bit of the next one. */
  function ShiftedLeft(a: bv8, b: bv8): bv8 {
    if b & 0x80 != 0 then (a << 1) | 0x01 else a << 1
  }

  function ShiftedRight(a: bv8, b: bv8): bv8 {
    if a & 0x01 != 0 then (b >> 1) | 0x80 else b >> 1
  }

  lemma ShiftedLeftBit(a: bv8, b: bv8, k: nat)
    requires k < 8
    ensures BitOf(ShiftedLeft(a, b), k) == if k < 7 then BitOf(a, k + 1) else BitOf(b, 0)
    ensures BitOf(a << 1, k) == (k < 7 && BitOf(a, k + 1))
  {
  }

  lemma ShiftedRightBit(a: bv8, b: bv8, k: nat)
    requires k < 8
    ensures BitOf(ShiftedRight(a, b), k) == if k > 0 then BitOf(b, k - 1) else BitOf(a, 7)
    ensures BitOf(b >> 1, k) == (k > 0 && BitOf(b, k - 1))
  {
  }

  /** All 56 bits move one place to the left. */
  method ShiftLeft(key: array<bv8>)
    requires key.Length == 7
    modifies key
    ensures forall q :: 0 <= q < 56 ==> Bit(key[..], q) == (q < 55 && Bit(old(key[..]), q + 1))
  {
    ghost var s := key[..];
    for j := 0 to 7
      invariant forall m :: 0 <= m < j - 1 ==> key[m] == ShiftedLeft(s[m], s[m + 1])
      invariant j > 0 ==> key[j - 1] == s[j - 1] << 1
      invariant forall m :: j <= m < 7 ==> key[m] == s[m]
    {
      if j != 0 && key[j] & 0x80 != 0 {
        key[j - 1] := key[j - 1] | 0x01;
      }
      key[j] := key[j] << 1;
    }
    ShiftedLeftBits(s, key[..]);
  }

  lemma ShiftedLeftBits(s: Bytes8, t: Bytes8)
    requires |s| == |t| == 7 && t[6] == s[6] << 1
    requires forall m :: 0 <= m < 6 ==> t[m] == ShiftedLeft(s[m], s[m + 1])
    ensures forall q :: 0 <= q < 56 ==> Bit(t, q) == (q < 55 && Bit(s, q + 1))
  {
    hide BitOf, ShiftedLeft;
    forall q | 0 <= q < 56 ensures Bit(t, q) == (q < 55 && Bit(s, q + 1)) {
      var m, k := q / 8, q % 8;
      ShiftedLeftBit(s[m], if m < 6 then s[m + 1] else 0, k);
    }
  }

  /** All 56 bits move one place to the right. */
  method ShiftRight(key: array<bv8>)
    requires key.Length == 7
    modifies key
    ensures forall q :: 0 <= q < 56 ==> Bit(key[..], q) == (q > 0 && Bit(old(key[..]), q - 1))
  {
    ghost var s := key[..];
    var j := 7;
    while j > 0
      invariant 0 <= j <= 7
      invariant forall m :: j < m < 7 ==> key[m] == ShiftedRight(s[m - 1], s[m])
      invariant j < 7 ==> key[j] == s[j] >> 1
      invariant forall m :: 0 <= m < j ==> key[m] == s[m]
    {
      if j != 7 && key[j - 1] & 0x01 != 0 {
        key[j] := key[j] | 0x80;
      }
      key[j - 1] := key[j - 1] >> 1;
      j := j - 1;
    }
    ShiftedRightBits(s, key[..]);
  }

  lemma ShiftedRightBits(s: Bytes8, t: Bytes8)
    requires |s| == |t| == 7 && t[0] == s[0] >> 1
    requires forall m :: 0 < m < 7 ==> t[m] == ShiftedRight(s[m - 1], s[m])
    ensures forall q :: 0 <= q < 56 ==> Bit(t, q) == (q > 0 && Bit(s, q - 1))
  {
    hide BitOf, ShiftedRight;
    forall q | 0 <= q < 56 ensures Bit(t, q) == (q > 0 && Bit(s, q - 1)) {
      var m, k := q / 8, q % 8;
      ShiftedRightBit(if m > 0 then s[m - 1] else 0, s[m], k);
    }
  }

  /** One turn of KeyShift; keep holds the highest bit of the key. */
  method TurnLeft(key: array<bv8>, keep: bv8)
    requires key.Length == 7 && BitOf(keep, 0) == Bit(key[..], 0)
    modifies key
    ensures key[..] == RotatedLeft(old(key[..]), 1)
  {
    hide Bit, RotatedLeft;
    ghost var s := key[..];
    ShiftLeft(key);
    if Bit(key[..], 27) {
      ClearBit(key, 27);
      SetBit(key, 55);
    }
    if keep & 0x80 != 0 {
      SetBit(key, 27);
    }
    forall i | 0 <= i < 56 ensures Bit(key[..], i) == Bit(RotatedLeft(s, 1), i) {
      LeftBit(s, 1, i);
    }
    SameBytes(key[..], RotatedLeft(s, 1));
  }

  /** One turn of KeyShiftRight; keep holds the lowest bit of the key. */
  method TurnRight(key: array<bv8>, keep: bv8)
    requires key.Length == 7 && BitOf(keep, 7) == Bit(key[..], 55)
    modifies key
    ensures key[..] == RotatedRight(old(key[..]), 1)
  {
    hide Bit, RotatedRight;
    ghost var s := key[..];
    ShiftRight(key);
    if Bit(key[..], 28) {
      ClearBit(key, 28);
      SetBit(key, 0);
    }
    if keep & 0x01 != 0 {
      SetBit(key, 28);
    }
    forall i | 0 <= i < 56 ensures Bit(key[..], i) == Bit(RotatedRight(s, 1), i) {
      RightBit(s, 1, i);
    }
    SameBytes(key[..], RotatedRight(s, 1));
  }

  lemma EndBits(s: Bytes8, i: nat)
    requires |s| == 7 && i < 8
    ensures Bit(s, i) == BitOf(s[0], i) && Bit(s, 55 - i) == BitOf(s[6], 7 - i)
    ensures LeftIndex(i, 0) == i && RightIndex(i, 55) == 55 - i
  {
  }

  /** keep is the first byte of the key, shifted left i times. */
  ghost predicate KeepsFirst(keep: bv8, first: bv8, i: nat) {
    forall k :: 0 <= k < 8 - i ==> BitOf(keep, k) == BitOf(first, k + i)
  }

  ghost predicate KeepsLast(keep: bv8, last: bv8, i: nat) {
    forall k :: i <= k < 8 ==> BitOf(keep, k) == BitOf(last, k - i)
  }

  lemma KeepStarts(first: bv8, last: bv8)
    ensures KeepsFirst(first, first, 0) && KeepsLast(last, last, 0)
  {
  }

  lemma KeepLeft(keep: bv8, first: bv8, i: nat)
    requires i < 8 && KeepsFirst(keep, first, i)
    ensures BitOf(keep, 0) == BitOf(first, i) && KeepsFirst(keep << 1, first, i + 1)
  {
    hide BitOf;
    var next := keep << 1;
    forall k | 0 <= k < 8 - (i + 1) ensures BitOf(next, k) == BitOf(first, k + (i + 1)) {
      ShiftedLeftBit(keep, 0, k);
    }
  }

  lemma KeepRight(keep: bv8, last: bv8, i: nat)
    requires i < 8 && KeepsLast(keep, last, i)
    ensures BitOf(keep, 7) == BitOf(last, 7 - i) && KeepsLast(keep >> 1, last, i + 1)
  {
    hide BitOf;
    var next := keep >> 1;
    forall k | i + 1 <= k < 8 ensures BitOf(next, k) == BitOf(last, k - (i + 1)) {
      ShiftedRightBit(0, keep, k);
    }
  }

  /** KeyShift */
  method KeyShift(key: array<bv8>, numbits: nat)
    requires key.Length == 7 && numbits <= 8
    modifies key
    ensures key[..] == RotatedLeft(old(key[..]), numbits)
  {
    hide Bit, BitOf, RotatedLeft, LeftIndex, ShiftedLeft, KeepsFirst;
    ghost var s := key[..];
    KeepStarts(s[0], s[6]);
    FullTurn(s);
    var keep := key[0];
    for i := 0 to numbits
      invariant key[..] == RotatedLeft(s, i)
      invariant KeepsFirst(keep, s[0], i)
    {
      LeftBit(s, i, 0);
      EndBits(s, i);
      KeepLeft(keep, s[0], i);
      TurnLeft(key, keep);
      LeftTwice(s, i, 1);
      keep := keep << 1;
    }
  }

  /** KeyShiftRight */
  method KeyShiftRight(key: array<bv8>, numbits: nat)
    requires key.Length == 7 && numbits <= 8
    modifies key
    ensures key[..] == RotatedRight(old(key[..]), numbits)
  {
    hide Bit, BitOf, RotatedRight, RightIndex, ShiftedRight, KeepsLast;
    ghost var s := key[..];
    KeepStarts(s[0], s[6]);
    NoTurn(s);
    var keep := key[6];
    for i := 0 to numbits
      invariant key[..] == RotatedRight(s, i)
      invariant KeepsLast(keep, s[6], i)
    {
      RightBit(s, i, 55);
      EndBits(s, i);
      KeepRight(keep, s[6], i);
      TurnRight(key, keep);
      RightTwice(s, i, 1);
      keep := keep >> 1;
    }
  }

  lemma NoTurn(k: Bytes8)
    requires |k| == 7
    ensures RotatedRight(k, 0) == k
  {
    hide Bit, RotatedRight;
    forall i | 0 <= i < 56 ensures Bit(RotatedRight(k, 0), i) == Bit(k, i) {
      RightBit(k, 0, i);
    }
    SameBytes(RotatedRight(k, 0), k);
  }

  lemma RightTwice(k: Bytes8, a: nat, b: nat)
    requires |k| == 7 && a + b <= 28
    ensures RotatedRight(RotatedRight(k, a), b) == RotatedRight(k, a + b)
  {
    hide Bit, RotatedRight;
    forall i | 0 <= i < 56 ensures Bit(RotatedRight(RotatedRight(k, a), b), i) == Bit(RotatedRight(k, a + b), i) {
      RightBit(RotatedRight(k, a), b, i);
      RightBit(k, a, RightIndex(b, i));
      RightBit(k, a + b, i);
    }
    SameBytes(RotatedRight(RotatedRight(k, a), b), RotatedRight(k, a + b));
  }

  // ---------- the round function ----------

  lemma OrBytes(x: bv8, high: bv8, low: bv8)
    requires x == 0
    ensures x | (high << 4) == high << 4 && (high << 4) | low == Nibbles(high, low)
  {
  }

  /** The 6-bit integer at bit p of the source. */
  method SixBitNumber(src: Subkey, p: nat) returns (snum: nat)
    requires p + 6 <= 48
    ensures snum == SixBits(src, p, 6) && snum < 64
  {
    hide Bit;
    snum := 0;
    ghost var bound := 1;
    for j := 0 to 6
      invariant snum == SixBits(src, p, j) && snum < bound && bound == Power(j)
    {
      snum := 2 * snum + if Bit(src, p + j) then 1 else 0;
      bound := 2 * bound;
    }
  }

  function Power(n: nat): nat {
    if n == 0 then 1 else 2 * Power(n - 1)
  }

  /** Byte j of the destination when the boxes below i are done. */
  function PartlySubstituted(b: Subkey, i: nat, j: nat): bv8
    requires j < 4
  {
    if i >= 2 * j + 2 then Nibbles(Nibble(b, 2 * j), Nibble(b, 2 * j + 1))
    else if i == 2 * j + 1 then Nibble(b, 2 * j) << 4
    else 0
  }

  /** sbox */
  method Substitute(dst: array<bv8>, src: Subkey)
    requires dst.Length == 4
    modifies dst
    ensures dst[..] == Substituted(src)
  {
    hide SixBits, SBox, Nibbles;
    for i := 0 to 4
      invariant forall j :: 0 <= j < i ==> dst[j] == 0
    {
      dst[i] := 0;
    }
    for i := 0 to 8
      invariant forall j :: 0 <= j < 4 ==> dst[j] == PartlySubstituted(src, i, j)
    {
      var snum := SixBitNumber(src, i * 6);
      ghost var x := dst[i / 2];
      if i % 2 == 0 {
        OrBytes(dst[i / 2], SBox(i, snum), 0);
        dst[i / 2] := dst[i / 2] | (SBox(i, snum) << 4);
      } else {
        OrBytes(0, Nibble(src, i - 1), SBox(i, snum));
        dst[i / 2] := dst[i / 2] | SBox(i, snum);
      }
    }
  }

  /** xor, whose destination may be one of its operands */
  method XorBytes(dst: array<bv8>, a: Bytes8, b: Bytes8)
    requires dst.Length >= |a| == |b|
    modifies dst
    ensures dst[..|a|] == Xor(a, b) && dst[|a|..] == old(dst[|a|..])
  {
    for i := 0 to |a|
      invariant dst[..i] == Xor(a, b)[..i] && dst[|a|..] == old(dst[|a|..])
    {
      dst[i] := a[i] ^ b[i];
    }
  }

  /** One round on the data block d with the key bits k. */
  method CryptRound(d: array<bv8>, k: Bytes8)
    requires d.Length == 8 && |k| == 7
    modifies d
    ensures d[..] == Round(old(d[..]), Permuted(k, KeyCompression, 6))
  {
    hide Permuted, Substituted, KeyCompression, DataExpansion, PBox;
    ghost var s := d[..];
    var rexp, rn, subkey := new bv8[6], new bv8[4], new bv8[6];
    Permute(subkey, k, KeyCompression, 6);
    Permute(rexp, d[4..], DataExpansion, 6);
    XorBytes(rexp, rexp[..], subkey[..]);
    assert rexp[..6] == rexp[..];
    Substitute(rn, rexp[..]);
    var pbox := new bv8[4];
    Permute(pbox, rn[..], PBox, 4);
    XorBytes(rn, d[..4], pbox[..]);
    assert rn[..4] == rn[..] == Xor(s[..4], F(s[4..], Permuted(k, KeyCompression, 6)));
    MoveHalves(d, rn);
  }

  /** The previous right half becomes the left one, rn the right one. */
  method MoveHalves(d: array<bv8>, rn: array<bv8>)
    requires d.Length == 8 && rn.Length == 4 && d != rn
    modifies d
    ensures d[..] == old(d[4..]) + rn[..]
  {
    ghost var s := d[..];
    for j := 0 to 4
      invariant forall q :: 0 <= q < j ==> d[q] == s[4 + q]
      invariant d[4..4 + j] == rn[..j]
      invariant d[4 + j..] == s[4 + j..]
    {
      d[j] := d[4 + j];
      d[4 + j] := rn[j];
    }
  }

  // ---------- the ciphers ----------

  /** cr_convert_key and the first permutation of the key. */
  method PrepareKey(k: array<bv8>, key: Key)
    requires k.Length == 7
    modifies k
    ensures k[..] == Halves(key)
  {
    var tmp := new bv8[7];
    Permute(tmp, key, Map8To7, 7);
    Permute(k, tmp[..], KeyPermuteMap, 7);
  }

  /** cr_des_encode; dst may be the buffer src was read from. */
  method Encode(dst: array<bv8>, key: Key, src: Block)
    requires dst.Length == 8
    modifies dst
    ensures dst[..] == Encrypted(key, src)
  {
    hide Permuted, Halves, RotatedLeft, Round, InitialPermuteMap, FinalPermuteMap, KeyCompression, KeyRotation, Shifts,
         EncryptionKeys;
    var k, d := new bv8[7], new bv8[8];
    ghost var halves, ks := Halves(key), EncryptionKeys(key);
    PrepareKey(k, key);
    Permute(d, src, InitialPermuteMap, 8);
    ghost var start := d[..];
    StartOfShifts();
    FullTurn(halves);
    for i := 0 to 16
      invariant Shifts(i) <= 28 && k[..] == RotatedLeft(halves, Shifts(i))
      invariant d[..] == State(ks, start, i)
      modifies k, d
    {
      NextShift(i);
      KeysAre(key, i);
      KeyShift(k, KeyRotation(i));
      LeftTwice(halves, Shifts(i), KeyRotation(i));
      CryptRound(d, k[..]);
    }
    Permute(dst, d[..], FinalPermuteMap, 8);
  }

  /** One turn of the loop of cr_des_decode: rotate the key right by b and apply a round. */
  method DecodeRound(d: array<bv8>, k: array<bv8>, ghost halves: Bytes8, ghost a: nat, b: nat)
    requires d.Length == 8 && k.Length == 7 && d != k && |halves| == 7 && b <= a <= 28 && b <= 8
    requires k[..] == RotatedLeft(halves, a)
    modifies d, k
    ensures k[..] == RotatedLeft(halves, a - b)
    ensures d[..] == Round(old(d[..]), Permuted(RotatedLeft(halves, a - b), KeyCompression, 6))
  {
    hide Permuted, RotatedLeft, RotatedRight, Round, KeyCompression;
    KeyShiftRight(k, b);
    RightAfterLeft(halves, a, b);
    CryptRound(d, k[..]);
  }

  /** cr_des_decode */
  method Decode(dst: array<bv8>, key: Key, src: Block)
    requires dst.Length == 8
    modifies dst
    ensures dst[..] == Decrypted(key, src)
  {
    hide Permuted, Halves, RotatedLeft, RotatedRight, Round, InitialPermuteMap, FinalPermuteMap, KeyCompression,
         KeyRotationRight, RightShifts, DecryptionKeys;
    var k, d := new bv8[7], new bv8[8];
    ghost var halves, ks := Halves(key), DecryptionKeys(key);
    PrepareKey(k, key);
    Permute(d, src, InitialPermuteMap, 8);
    ghost var start := d[..];
    StartOfShifts();
    FullTurn(halves);
    for i := 0 to 16
      invariant RightShifts(i) <= 28 && k[..] == RotatedLeft(halves, 28 - RightShifts(i))
      invariant d[..] == State(ks, start, i)
      modifies k, d
    {
      NextShift(i);
      KeysAre(key, i);
      DecodeRound(d, k, halves, 28 - RightShifts(i), KeyRotationRight(i));
    }
    Permute(dst, d[..], FinalPermuteMap, 8);
  }

  lemma StartOfShifts()
    ensures Shifts(0) == 0 && RightShifts(0) == 0
  {
  }

  lemma NextShift(i: nat)
    ensures KeyRotation(i) <= 2 && Shifts(i + 1) == Shifts(i) + KeyRotation(i)
    ensures KeyRotationRight(i) <= 2 && RightShifts(i + 1) == RightShifts(i) + KeyRotationRight(i)
  {
  }

  /** cr_tdes2_encode */
  method Tdes2Encode(dst: array<bv8>, key: Bytes8, src: Block)
    requires dst.Length == 8 && |key| >= 16
    modifies dst
    ensures dst[..] == TripleEncrypted(key[..8], key[8..16], key[..8], src)
  {
    hide Encrypted, Decrypted;
    Encode(dst, key[..8], src);
    Decode(dst, key[8..16], dst[..]);
    Encode(dst, key[..8], dst[..]);
  }

  /** cr_tdes2_decode */
  method Tdes2Decode(dst: array<bv8>, key: Bytes8, src: Block)
    requires dst.Length == 8 && |key| >= 16
    modifies dst
    ensures dst[..] == TripleDecrypted(key[..8], key[8..16], key[..8], src)
  {
    hide Encrypted, Decrypted;
    Decode(dst, key[..8], src);
    Encode(dst, key[8..16], dst[..]);
    Decode(dst, key[..8], dst[..]);
  }

  /** cr_tdes3_encode */
  method Tdes3Encode(dst: array<bv8>, key: Bytes8, src: Block)
    requires dst.Length == 8 && |key| >= 24
    modifies dst
    ensures dst[..] == TripleEncrypted(key[..8], key[8..16], key[16..24], src)
  {
    hide Encrypted, Decrypted;
    Encode(dst, key[..8], src);
    Decode(dst, key[8..16], dst[..]);
    Encode(dst, key[16..24], dst[..]);
  }

  /** cr_tdes3_decode */
  method Tdes3Decode(dst: array<bv8>, key: Bytes8, src: Block)
    requires dst.Length == 8 && |key| >= 24
    modifies dst
    ensures dst[..] == TripleDecrypted(key[..8], key[8..16], key[16..24], src)
  {
    hide Encrypted, Decrypted;
    Decode(dst, key[16..24], src);
    Encode(dst, key[8..16], dst[..]);
    Decode(dst, key[..8], dst[..]);
  }
}
