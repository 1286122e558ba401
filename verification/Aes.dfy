/** cr_aes.c: the AES-128 cipher on a state that is updated in place. */
module Aes {
  import opened BlockCiphers
  import opened AesField

  const ROUNDS := 10
  const RCON: Bytes8 := [0x8d, 0x01, 0x02, 0x04, 0x08, 0x10, 0x20, 0x40, 0x80, 0x1b, 0x36]

  type Block = s: Bytes8 | |s| == 16 witness [0, 0, 0, 0, 0, 0, 0, 0, 0, 0, 0, 0, 0, 0, 0, 0]
  type Column = s: Bytes8 | |s| == 4 witness [0, 0, 0, 0]
  type Schedule = s: Bytes8 | |s| == 176 witness seq(176, _ => 0)

  // ---------- the steps (sections 5.1 and 5.3 of FIPS 197) ----------

  function SubBytes(s: Block): Block {
    seq(16, q requires 0 <= q < 16 => SBox(s[q]))
  }

  function InvSubBytes(s: Block): Block {
    seq(16, q requires 0 <= q < 16 => RSBox(s[q]))
  }

  /** Row r of the column-wise state moves r columns to the left. */
  function ShiftRows(s: Block): Block {
    [s[0], s[5], s[10], s[15], s[4], s[9], s[14], s[3], s[8], s[13], s[2], s[7], s[12], s[1], s[6], s[11]]
  }

  function InvShiftRows(s: Block): Block {
    [s[0], s[13], s[10], s[7], s[4], s[1], s[14], s[11], s[8], s[5], s[2], s[15], s[12], s[9], s[6], s[3]]
  }

  function MixColumn(c: Column): Column {
    [Mix(c[0], c[1], c[2], c[3]), Mix(c[1], c[2], c[3], c[0]), Mix(c[2], c[3], c[0], c[1]), Mix(c[3], c[0], c[1], c[2])]
  }

  function InvMixColumn(c: Column): Column {
    [InvMix(c[0], c[1], c[2], c[3]), InvMix(c[1], c[2], c[3], c[0]),
     InvMix(c[2], c[3], c[0], c[1]), InvMix(c[3], c[0], c[1], c[2])]
  }

  function MixColumns(s: Block): Block {
    MixColumn(s[0..4]) + MixColumn(s[4..8]) + MixColumn(s[8..12]) + MixColumn(s[12..16])
  }

  function InvMixColumns(s: Block): Block {
    InvMixColumn(s[0..4]) + InvMixColumn(s[4..8]) + InvMixColumn(s[8..12]) + InvMixColumn(s[12..16])
  }

  function RoundKey(w: Schedule, round: nat): Block
    requires round <= ROUNDS
  {
    w[16 * round..16 * round + 16]
  }

  function AddRoundKey(w: Schedule, round: nat, s: Block): Block
    requires round <= ROUNDS
  {
    Xor(s, RoundKey(w, round))
  }

  /** Section 5.1.2 of FIPS 197: the byte in row r, column c comes from row r, r columns to the right. */
  lemma ShiftRowsMoves(s: Block, r: nat, c: nat)
    requires r < 4 && c < 4
    ensures ShiftRows(s)[4 * c + r] == s[4 * ((c + r) % 4) + r]
  {
  }

  // ---------- every step is undone by its inverse ----------

  lemma SubBytesInverts(s: Block)
    ensures InvSubBytes(SubBytes(s)) == s
  {
    hide SBox, RSBox;
    forall q | 0 <= q < 16 ensures InvSubBytes(SubBytes(s))[q] == s[q] {
      SubstitutionInverts(s[q]);
    }
  }

  lemma ShiftRowsInverts(s: Block)
    ensures InvShiftRows(ShiftRows(s)) == s
  {
  }

  lemma MixColumnInverts(c: Column)
    ensures InvMixColumn(MixColumn(c)) == c
  {
    hide Mix, InvMix;
    MixInverts(c[0], c[1], c[2], c[3]);
    MixInverts(c[1], c[2], c[3], c[0]);
    MixInverts(c[2], c[3], c[0], c[1]);
    MixInverts(c[3], c[0], c[1], c[2]);
  }

  lemma MixColumnsInverts(s: Block)
    ensures InvMixColumns(MixColumns(s)) == s
  {
    hide MixColumn, InvMixColumn;
    var m := MixColumns(s);
    assert m[0..4] == MixColumn(s[0..4]) && m[4..8] == MixColumn(s[4..8]);
    assert m[8..12] == MixColumn(s[8..12]) && m[12..16] == MixColumn(s[12..16]);
    MixColumnInverts(s[0..4]);
    MixColumnInverts(s[4..8]);
    MixColumnInverts(s[8..12]);
    MixColumnInverts(s[12..16]);
    assert s == s[0..4] + s[4..8] + s[8..12] + s[12..16];
  }

  lemma AddRoundKeyInverts(w: Schedule, round: nat, s: Block)
    requires round <= ROUNDS
    ensures AddRoundKey(w, round, AddRoundKey(w, round, s)) == s
  {
    XorTwice(s, RoundKey(w, round));
  }

  // ---------- the rounds ----------

  /** The state of Cipher after n of the nine equal rounds. */
  function Forward(w: Schedule, s: Block, n: nat): Block
    requires n < ROUNDS
  {
    if n == 0 then AddRoundKey(w, 0, s)
    else AddRoundKey(w, n, MixColumns(ShiftRows(SubBytes(Forward(w, s, n - 1)))))
  }

  function Cipher(w: Schedule, s: Block): Block {
    AddRoundKey(w, ROUNDS, ShiftRows(SubBytes(Forward(w, s, ROUNDS - 1))))
  }

  /** The state of InvCipher when rounds n + 1 to 9 are done. */
  function Backward(w: Schedule, s: Block, n: nat): Block
    requires n < ROUNDS
    decreases ROUNDS - n
  {
    if n == ROUNDS - 1 then AddRoundKey(w, ROUNDS, s)
    else InvMixColumns(AddRoundKey(w, n + 1, InvSubBytes(InvShiftRows(Backward(w, s, n + 1)))))
  }

  function InvCipher(w: Schedule, s: Block): Block {
    AddRoundKey(w, 0, InvSubBytes(InvShiftRows(Backward(w, s, 0))))
  }

  /** InvCipher meets the states of Cipher in reverse order. */
  lemma {:induction false} BackwardMeetsForward(w: Schedule, s: Block, n: nat)
    requires n < ROUNDS
    ensures Backward(w, Cipher(w, s), n) == ShiftRows(SubBytes(Forward(w, s, n)))
    decreases ROUNDS - n
  {
    hide SubBytes, InvSubBytes, ShiftRows, InvShiftRows, MixColumns, InvMixColumns, AddRoundKey;
    if n == ROUNDS - 1 {
      AddRoundKeyInverts(w, ROUNDS, ShiftRows(SubBytes(Forward(w, s, n))));
    } else {
      BackwardMeetsForward(w, s, n + 1);
      var f := Forward(w, s, n + 1);
      ShiftRowsInverts(SubBytes(f));
      SubBytesInverts(f);
      var m := ShiftRows(SubBytes(Forward(w, s, n)));
      AddRoundKeyInverts(w, n + 1, MixColumns(m));
      MixColumnsInverts(m);
    }
  }

  /** Deciphering with the same expanded key restores every block. */
  lemma InvCipherInverts(w: Schedule, s: Block)
    ensures InvCipher(w, Cipher(w, s)) == s
  {
    hide SubBytes, InvSubBytes, ShiftRows, InvShiftRows, MixColumns, InvMixColumns, AddRoundKey;
    BackwardMeetsForward(w, s, 0);
    ShiftRowsInverts(SubBytes(Forward(w, s, 0)));
    SubBytesInverts(Forward(w, s, 0));
    AddRoundKeyInverts(w, 0, s);
  }

  // ---------- what a round is, byte by byte ----------

  function Rotated(c: Column): Column {
    c[1..] + c[..1]
  }

  /** MixColumn multiplies by the polynomial with the coefficients 3, 1, 1, 2 of section 5.1.3 of FIPS 197. */
  lemma MixColumnIsPolynomial(c: Column, d: Column, x: bv8)
    ensures MixColumn([x, 0, 0, 0]) == [XTime(x), x, x, Triple(x)]
    ensures MixColumn(Rotated(c)) == Rotated(MixColumn(c))
    ensures MixColumn(Xor(c, d)) == Xor(MixColumn(c), MixColumn(d))
  {
    hide *;
    MixOfUnit(x);
    MixTurns(c);
    forall k | 0 <= k < 4
      ensures MixColumn(Xor(c, d))[k] == Xor(MixColumn(c), MixColumn(d))[k]
    {
      MixAdds(c, d, k);
      XorIsPlus(MixColumn(c), MixColumn(d), k);
    }
  }

  lemma MixOfUnit(x: bv8)
    ensures MixColumn([x, 0, 0, 0]) == [XTime(x), x, x, Triple(x)]
  {
    hide Mix, XTime, Triple;
    MixUnit(x);
  }

  lemma MixTurns(c: Column)
    ensures MixColumn(Rotated(c)) == Rotated(MixColumn(c))
  {
    hide Mix;
  }

  lemma MixColumnAt(c: Column, k: nat)
    requires k < 4
    ensures MixColumn(c)[k] == Mix(c[k], c[(k + 1) % 4], c[(k + 2) % 4], c[(k + 3) % 4])
  {
    hide Mix;
    assert k == 0 || k == 1 || k == 2 || k == 3;
  }

  lemma XorIsPlus(c: Column, d: Column, k: nat)
    requires k < 4
    ensures Xor(c, d)[k] == Plus(c[k], d[k])
  {
  }

  lemma MixAdds(c: Column, d: Column, k: nat)
    requires k < 4
    ensures MixColumn(Xor(c, d))[k] == Plus(MixColumn(c)[k], MixColumn(d)[k])
  {
    hide *;
    var k1, k2, k3 := (k + 1) % 4, (k + 2) % 4, (k + 3) % 4;
    MixColumnAt(c, k);
    MixColumnAt(d, k);
    MixColumnAt(Xor(c, d), k);
    XorIsPlus(c, d, k);
    XorIsPlus(c, d, k1);
    XorIsPlus(c, d, k2);
    XorIsPlus(c, d, k3);
    MixSums(c[k], c[k1], c[k2], c[k3], d[k], d[k1], d[k2], d[k3]);
  }

  /** Row r, column c behind SubBytes and ShiftRows. */
  function Substituted(t: Block, r: nat, c: nat): bv8
    requires r < 4 && c < 4
  {
    SBox(t[4 * ((c + r) % 4) + r])
  }

  /** Row r, column c behind MixColumns as well. */
  function Mixed(t: Block, r: nat, c: nat): bv8
    requires r < 4 && c < 4
  {
    Mix(Substituted(t, r, c), Substituted(t, (r + 1) % 4, c),
        Substituted(t, (r + 2) % 4, c), Substituted(t, (r + 3) % 4, c))
  }

  lemma MixedByte(t: Block, r: nat, c: nat)
    requires r < 4 && c < 4
    ensures ShiftRows(SubBytes(t))[4 * c + r] == Substituted(t, r, c)
    ensures MixColumns(ShiftRows(SubBytes(t)))[4 * c + r] == Mixed(t, r, c)
  {
    hide Mix, SBox, ShiftRows, MixColumns, SubBytes;
    forall q | 0 <= q < 4
      ensures ShiftRows(SubBytes(t))[4 * c + q] == Substituted(t, q, c)
    {
      SubstitutedByte(t, q, c);
    }
    ColumnByte(ShiftRows(SubBytes(t)), r, c);
  }

  lemma SubstitutedByte(t: Block, r: nat, c: nat)
    requires r < 4 && c < 4
    ensures ShiftRows(SubBytes(t))[4 * c + r] == Substituted(t, r, c)
  {
    hide SBox, ShiftRows;
    ShiftRowsMoves(SubBytes(t), r, c);
  }

  lemma ColumnByte(s: Block, r: nat, c: nat)
    requires r < 4 && c < 4
    ensures MixColumns(s)[4 * c + r] ==
            Mix(s[4 * c + r], s[4 * c + (r + 1) % 4], s[4 * c + (r + 2) % 4], s[4 * c + (r + 3) % 4])
  {
    hide Mix, MixColumn, MixColumns;
    ColumnAt(s, r, c);
    SliceAt(s, 4 * c, r);
    SliceAt(s, 4 * c, (r + 1) % 4);
    SliceAt(s, 4 * c, (r + 2) % 4);
    SliceAt(s, 4 * c, (r + 3) % 4);
    MixColumnAt(s[4 * c..4 * c + 4], r);
  }

  lemma SliceAt(s: Block, p: nat, q: nat)
    requires p + 4 <= 16 && q < 4
    ensures s[p..p + 4][q] == s[p + q]
  {
  }

  lemma ColumnAt(s: Block, r: nat, c: nat)
    requires r < 4 && c < 4
    ensures MixColumns(s)[4 * c + r] == MixColumn(s[4 * c..4 * c + 4])[r]
  {
    hide MixColumn;
    assert c == 0 || c == 1 || c == 2 || c == 3;
  }

  /** Round n makes t out of s. */
  ghost predicate Round(w: Schedule, s: Block, t: Block, n: nat)
    requires 1 <= n <= ROUNDS
  {
    forall r: nat, c: nat {:trigger Mixed(s, r, c)} {:trigger Substituted(s, r, c)} :: r < 4 && c < 4 ==>
      t[4 * c + r] == (if n < ROUNDS then Mixed(s, r, c) else Substituted(s, r, c)) ^ w[16 * n + 4 * c + r]
  }

  lemma RoundIs(w: Schedule, s: Block, n: nat)
    requires 1 <= n <= ROUNDS
    ensures var t := ShiftRows(SubBytes(s));
      Round(w, s, AddRoundKey(w, n, if n < ROUNDS then MixColumns(t) else t), n)
  {
    hide ShiftRows, SubBytes, MixColumns, Mixed, Substituted;
    forall r: nat, c: nat | r < 4 && c < 4
      ensures var t := ShiftRows(SubBytes(s));
        AddRoundKey(w, n, if n < ROUNDS then MixColumns(t) else t)[4 * c + r]
        == (if n < ROUNDS then Mixed(s, r, c) else Substituted(s, r, c)) ^ w[16 * n + 4 * c + r]
    {
      MixedByte(s, r, c);
    }
  }

  /** Section 5.1 of FIPS 197: the key is added, then come nine rounds and one without MixColumns. */
  lemma CipherRounds(w: Schedule, s: Block) returns (t: seq<Block>)
    ensures |t| == 11 && t[10] == Cipher(w, s)
    ensures forall q :: 0 <= q < 16 ==> t[0][q] == s[q] ^ w[q]
    ensures forall n :: 1 <= n <= 10 ==> Round(w, t[n - 1], t[n], n)
  {
    hide ShiftRows, SubBytes, MixColumns, AddRoundKey, Round;
    t := seq(11, n requires 0 <= n < 11 => if n < 10 then Forward(w, s, n) else Cipher(w, s));
    forall n | 1 <= n <= 10
      ensures Round(w, t[n - 1], t[n], n)
    {
      RoundIs(w, Forward(w, s, n - 1), n);
      var u := ShiftRows(SubBytes(Forward(w, s, n - 1)));
      assert t[n] == AddRoundKey(w, n, if n < ROUNDS then MixColumns(u) else u);
    }
    KeyAdded(w, s);
  }

  lemma KeyAdded(w: Schedule, s: Block)
    ensures forall q :: 0 <= q < 16 ==> AddRoundKey(w, 0, s)[q] == s[q] ^ w[q]
  {
  }

  // ---------- key expansion (section 5.2 of FIPS 197) ----------

  function SubWord(t: Column): Column {
    [SBox(t[0]), SBox(t[1]), SBox(t[2]), SBox(t[3])]
  }

  function RotWord(t: Column): Column {
    [t[1], t[2], t[3], t[0]]
  }

  /** Word n of the schedule, given the words before it. */
  function NextWord(w: Bytes8, n: nat): Column
    requires 4 <= n < 44 && |w| == 4 * n
  {
    var back, prev := w[4 * n - 16..4 * n - 12], w[4 * n - 4..];
    if n % 4 == 0 then
      var t := SubWord(RotWord(prev));
      Xor(back, t[0 := t[0] ^ RCON[n / 4]])
    else Xor(back, prev)
  }

  function Expanded(key: Block, n: nat): (w: Bytes8)
    requires 4 <= n <= 44
    ensures |w| == 4 * n
  {
    if n == 4 then key
    else
      var w := Expanded(key, n - 1);
      w + NextWord(w, n - 1)
  }

  /** Round constants are the powers of the polynomial x. */
  lemma RconDoubles(i: nat)
    requires 1 <= i < ROUNDS
    ensures RCON[1] == 1 && RCON[i + 1] == XTime(RCON[i])
  {
    assert i == 1 || i == 2 || i == 3 || i == 4 || i == 5 || i == 6 || i == 7 || i == 8 || i == 9;
  }

  lemma {:induction false} ExpandedPrefix(key: Block, n: nat, m: nat)
    requires 4 <= n <= m <= 44
    ensures Expanded(key, m)[..4 * n] == Expanded(key, n)
    decreases m
  {
    hide NextWord;
    if n < m {
      ExpandedPrefix(key, n, m - 1);
      assert Expanded(key, m)[..4 * n] == Expanded(key, m - 1)[..4 * n];
    }
  }

  /** What byte i of word n adds to that byte of the word four before. */
  function KeyByte(w: Bytes8, n: nat, i: nat): bv8
    requires 4 <= n < 44 && i < 4 && 4 * n <= |w|
  {
    if n % 4 != 0 then w[4 * n - 4 + i]
    else if i == 0 then SBox(w[4 * n - 3]) ^ RCON[n / 4]
    else SBox(w[4 * n - 4 + (i + 1) % 4])
  }

  lemma CoreBytes(back: Column, prev: Column, rcon: bv8, i: nat)
    requires i < 4
    ensures var t := SubWord(RotWord(prev));
      Xor(back, t[0 := t[0] ^ rcon])[i] == back[i] ^ CoreByte(prev, rcon, i)
  {
    hide SBox;
  }

  function CoreByte(prev: Column, rcon: bv8, i: nat): bv8
    requires i < 4
  {
    if i == 0 then SBox(prev[1]) ^ rcon else SBox(prev[(i + 1) % 4])
  }

  lemma CoreIsKeyByte(w: Bytes8, n: nat, i: nat)
    requires 4 <= n < 44 && |w| == 4 * n && i < 4 && n % 4 == 0
    ensures n / 4 < |RCON| && CoreByte(w[4 * n - 4..], RCON[n / 4], i) == KeyByte(w, n, i)
  {
    hide SBox;
    var prev := w[4 * n - 4..];
    assert prev[1] == w[4 * n - 3] && prev[(i + 1) % 4] == w[4 * n - 4 + (i + 1) % 4];
  }

  lemma CoreWord(w: Bytes8, n: nat)
    requires 4 <= n < 44 && |w| == 4 * n && n % 4 == 0
    ensures var back: Column, t := w[4 * n - 16..4 * n - 12], SubWord(RotWord(w[4 * n - 4..]));
      NextWord(w, n) == Xor(back, t[0 := t[0] ^ RCON[n / 4]])
  {
    hide SubWord, RotWord, Xor;
  }

  lemma PlainWord(w: Bytes8, n: nat)
    requires 4 <= n < 44 && |w| == 4 * n && n % 4 != 0
    ensures NextWord(w, n) == Xor(w[4 * n - 16..4 * n - 12], w[4 * n - 4..])
  {
    hide SubWord, RotWord, Xor;
  }

  lemma CoreWordBytes(w: Bytes8, n: nat, i: nat)
    requires 4 <= n < 44 && |w| == 4 * n && i < 4 && n % 4 == 0
    ensures NextWord(w, n)[i] == w[4 * n - 16 + i] ^ KeyByte(w, n, i)
  {
    hide *;
    WordBytes(w, 4 * n - 16, i);
    CoreWord(w, n);
    CoreIsKeyByte(w, n, i);
    CoreBytes(w[4 * n - 16..4 * n - 12], w[4 * n - 4..], RCON[n / 4], i);
  }

  lemma PlainWordBytes(w: Bytes8, n: nat, i: nat)
    requires 4 <= n < 44 && |w| == 4 * n && i < 4 && n % 4 != 0
    ensures NextWord(w, n)[i] == w[4 * n - 16 + i] ^ KeyByte(w, n, i)
  {
    hide *;
    WordBytes(w, 4 * n - 16, i);
    PlainWord(w, n);
    PlainIsKeyByte(w, n, i);
  }

  lemma NextWordBytes(w: Bytes8, n: nat, i: nat)
    requires 4 <= n < 44 && |w| == 4 * n && i < 4
    ensures NextWord(w, n)[i] == w[4 * n - 16 + i] ^ KeyByte(w, n, i)
  {
    hide *;
    if n % 4 == 0 { CoreWordBytes(w, n, i); } else { PlainWordBytes(w, n, i); }
  }

  lemma WordBytes(w: Bytes8, p: nat, i: nat)
    requires p + 4 <= |w| && i < 4
    ensures w[p..p + 4][i] == w[p + i]
  {
  }

  lemma PlainIsKeyByte(w: Bytes8, n: nat, i: nat)
    requires 4 <= n < 44 && |w| == 4 * n && i < 4 && n % 4 != 0
    ensures w[4 * n - 4..][i] == KeyByte(w, n, i)
  {
  }

  /**
    Section 5.2 of FIPS 197 on the finished schedule: the key, then word by word the sum of the word four
    before and the word before, which at the start of each round key is rotated, substituted and added to
    the round constant.
    */
  lemma ScheduleRecurs(key: Block, n: nat, i: nat)
    requires 4 <= n < 44 && i < 4
    ensures var w := Expanded(key, 44);
      && w[..16] == key
      && w[4 * n + i] == w[4 * n - 16 + i] ^ KeyByte(w, n, i)
  {
    hide SBox, NextWord;
    var w, v := Expanded(key, 44), Expanded(key, n);
    ExpandedPrefix(key, 4, 44);
    ExpandedPrefix(key, n, 44);
    ExpandedPrefix(key, n + 1, 44);
    NextWordBytes(v, n, i);
    assert w[..4 * (n + 1)][4 * n + i] == (v + NextWord(v, n))[4 * n + i];
    assert w[..4 * n] == v;
    SamePlaces(w, v, 4 * n);
  }

  lemma SamePlaces(w: Bytes8, v: Bytes8, n: nat)
    requires n <= |w| && w[..n] == v
    ensures forall q :: 0 <= q < n ==> w[q] == v[q]
  {
    assert forall q :: 0 <= q < n ==> w[q] == w[..n][q];
  }

  function Encrypted(key: Block, s: Block): Block {
    Cipher(Expanded(key, 44), s)
  }

  function Decrypted(key: Block, s: Block): Block {
    InvCipher(Expanded(key, 44), s)
  }

  /** cr_aes_decode undoes cr_aes_encode for every key and block. */
  lemma DecryptedIsOriginal(key: Block, s: Block)
    ensures Decrypted(key, Encrypted(key, s)) == s
  {
    InvCipherInverts(Expanded(key, 44), s);
  }
}
