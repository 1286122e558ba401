/** The routines of cr_aes.c over the static state and round keys, against the functions of Aes. */
module AesCipher {
  import opened BlockCiphers
  import opened AesField
  import Aes

  class Engine {
    const roundKey: array<bv8>     // RoundKey
    const state: array<bv8>        // *state, column after column

    constructor (state: array<bv8>)
      requires state.Length == 16
      ensures this.state == state && fresh(roundKey) && Sized()
    {
      this.state := state;
      roundKey := new bv8[176];
    }

    predicate Sized() {
      state.Length == 16 && roundKey.Length == 176 && state != roundKey
    }

    /** The first n bytes are those of d, the others still those of s. */
    ghost function Upto(s: Aes.Block, d: Aes.Block, n: nat): (r: Aes.Block)
      requires n <= 16
    {
      d[..n] + s[n..]
    }

    lemma UptoNext(s: Aes.Block, d: Aes.Block, n: nat)
      requires n <= 16
      ensures Upto(s, d, 0) == s && Upto(s, d, 16) == d
      ensures n < 16 ==> Upto(s, d, n)[n] == s[n] && Upto(s, d, n)[n := d[n]] == Upto(s, d, n + 1)
    {
    }

    method AddRoundKey(round: nat)
      requires Sized() && round <= Aes.ROUNDS
      modifies state
      ensures state[..] == Aes.AddRoundKey(roundKey[..], round, old(state[..]))
    {
      hide Upto, Aes.AddRoundKey;
      ghost var s, d := state[..], Aes.AddRoundKey(roundKey[..], round, state[..]);
      UptoNext(s, d, 0);
      for i := 0 to 4
        invariant state[..] == Upto(s, d, 4 * i)
      {
        for j := 0 to 4
          invariant state[..] == Upto(s, d, 4 * i + j)
        {
          UptoNext(s, d, 4 * i + j);
          KeyAdded(roundKey[..], round, s, 4 * i + j);
          state[4 * i + j] := state[4 * i + j] ^ roundKey[round * 4 * 4 + i * 4 + j];
        }
      }
    }

    lemma KeyAdded(w: Bytes8, round: nat, s: Aes.Block, q: nat)
      requires |w| == 176 && round <= Aes.ROUNDS && q < 16
      ensures Aes.AddRoundKey(w, round, s)[q] == s[q] ^ w[16 * round + q]
    {
    }

    /** The inner loop of SubBytes: row i, byte by byte. */
    method SubRow(i: nat)
      requires Sized() && i < 4
      modifies state
      ensures forall q :: 0 <= q < 16 ==> state[q] == if q % 4 == i then SBox(old(state[q])) else old(state[q])
    {
      hide SBox;
      for j := 0 to 4
        invariant forall q :: 0 <= q < 16 ==>
                    state[q] == if q % 4 == i && q < 4 * j then SBox(old(state[q])) else old(state[q])
      {
        state[4 * j + i] := SBox(state[4 * j + i]);
      }
    }

    method SubBytes()
      requires Sized()
      modifies state
      ensures state[..] == Aes.SubBytes(old(state[..]))
    {
      hide SBox;
      ghost var s := state[..];
      for i := 0 to 4
        invariant forall q :: 0 <= q < 16 ==> state[q] == if q % 4 < i then SBox(s[q]) else s[q]
      {
        SubRow(i);
      }
    }

    /** The inner loop of InvSubBytes: row i, byte by byte. */
    method InvSubRow(i: nat)
      requires Sized() && i < 4
      modifies state
      ensures forall q :: 0 <= q < 16 ==> state[q] == if q % 4 == i then RSBox(old(state[q])) else old(state[q])
    {
      hide RSBox;
      for j := 0 to 4
        invariant forall q :: 0 <= q < 16 ==>
                    state[q] == if q % 4 == i && q < 4 * j then RSBox(old(state[q])) else old(state[q])
      {
        state[4 * j + i] := RSBox(state[4 * j + i]);
      }
    }

    method InvSubBytes()
      requires Sized()
      modifies state
      ensures state[..] == Aes.InvSubBytes(old(state[..]))
    {
      hide RSBox;
      ghost var s := state[..];
      for i := 0 to 4
        invariant forall q :: 0 <= q < 16 ==> state[q] == if q % 4 < i then RSBox(s[q]) else s[q]
      {
        InvSubRow(i);
      }
    }

    /** Row 1 moves one column to the left. */
    method ShiftRow1()
      requires Sized()
      modifies state
      ensures state[..] ==
        old(state[..])[1 := old(state[5])][5 := old(state[9])][9 := old(state[13])][13 := old(state[1])]
    {
      var temp := state[1];
      state[1] := state[5];
      state[5] := state[9];
      state[9] := state[13];
      state[13] := temp;
    }

    /** Row 2 moves two columns, in either direction. */
    method ShiftRow2()
      requires Sized()
      modifies state
      ensures state[..] ==
        old(state[..])[2 := old(state[10])][10 := old(state[2])][6 := old(state[14])][14 := old(state[6])]
    {
      var temp := state[2];
      state[2] := state[10];
      state[10] := temp;
      temp := state[6];
      state[6] := state[14];
      state[14] := temp;
    }

    /** Row 3 moves three columns to the left. */
    method ShiftRow3()
      requires Sized()
      modifies state
      ensures state[..] ==
        old(state[..])[3 := old(state[15])][15 := old(state[11])][11 := old(state[7])][7 := old(state[3])]
    {
      var temp := state[3];
      state[3] := state[15];
      state[15] := state[11];
      state[11] := state[7];
      state[7] := temp;
    }

    method InvShiftRow1()
      requires Sized()
      modifies state
      ensures state[..] ==
        old(state[..])[13 := old(state[9])][9 := old(state[5])][5 := old(state[1])][1 := old(state[13])]
    {
      var temp := state[13];
      state[13] := state[9];
      state[9] := state[5];
      state[5] := state[1];
      state[1] := temp;
    }

    method InvShiftRow3()
      requires Sized()
      modifies state
      ensures state[..] ==
        old(state[..])[3 := old(state[7])][7 := old(state[11])][11 := old(state[15])][15 := old(state[3])]
    {
      var temp := state[3];
      state[3] := state[7];
      state[7] := state[11];
      state[11] := state[15];
      state[15] := temp;
    }

    method ShiftRows()
      requires Sized()
      modifies state
      ensures state[..] == Aes.ShiftRows(old(state[..]))
    {
      ghost var s := state[..];
      ShiftRow1();
      ShiftRow2();
      ShiftRow3();
    }

    method InvShiftRows()
      requires Sized()
      modifies state
      ensures state[..] == Aes.InvShiftRows(old(state[..]))
    {
      InvShiftRow1();
      ShiftRow2();
      InvShiftRow3();
    }

    /** One turn of MixColumns: the column at p. */
    method MixColumn(p: nat)
      requires Sized() && p + 4 <= 16
      modifies state
      ensures state[..] == old(state[..p]) + Aes.MixColumn(old(state[p..p + 4])) + old(state[p + 4..])
    {
      hide XTime, Mix, Plus;
      ghost var a, b, c, d := state[p], state[p + 1], state[p + 2], state[p + 3];
      MixWithOneDoubling(a, b, c, d);
      var t := state[p];
      var sum := Plus(Plus(Plus(state[p], state[p + 1]), state[p + 2]), state[p + 3]);
      var tm := XTime(Plus(state[p], state[p + 1]));
      state[p] := Plus(state[p], Plus(tm, sum));
      assert state[p] == Mix(a, b, c, d);
      tm := XTime(Plus(state[p + 1], state[p + 2]));
      state[p + 1] := Plus(state[p + 1], Plus(tm, sum));
      assert state[p + 1] == Mix(b, c, d, a);
      tm := XTime(Plus(state[p + 2], state[p + 3]));
      state[p + 2] := Plus(state[p + 2], Plus(tm, sum));
      assert state[p + 2] == Mix(c, d, a, b);
      tm := XTime(Plus(state[p + 3], t));
      state[p + 3] := Plus(state[p + 3], Plus(tm, sum));
      assert state[p + 3] == Mix(d, a, b, c);
    }

    /** One turn of InvMixColumns: the column at p. */
    method InvMixColumn(p: nat)
      requires Sized() && p + 4 <= 16
      modifies state
      ensures state[..] == old(state[..p]) + Aes.InvMixColumn(old(state[p..p + 4])) + old(state[p + 4..])
    {
      hide Multiply, Plus, InvMix;
      var a, b, c, d := state[p], state[p + 1], state[p + 2], state[p + 3];
      InvMixOrders(a, b, c, d);
      state[p] := Plus(Plus(Plus(Multiply(a, 0x0e), Multiply(b, 0x0b)), Multiply(c, 0x0d)), Multiply(d, 0x09));
      state[p + 1] := Plus(Plus(Plus(Multiply(a, 0x09), Multiply(b, 0x0e)), Multiply(c, 0x0b)), Multiply(d, 0x0d));
      state[p + 2] := Plus(Plus(Plus(Multiply(a, 0x0d), Multiply(b, 0x09)), Multiply(c, 0x0e)), Multiply(d, 0x0b));
      state[p + 3] := Plus(Plus(Plus(Multiply(a, 0x0b), Multiply(b, 0x0d)), Multiply(c, 0x09)), Multiply(d, 0x0e));
    }

    /** The first i columns are those of m, the others still those of s. */
    ghost function Partly(s: Aes.Block, m: Aes.Block, i: nat): (r: Aes.Block)
      requires i <= 4
    {
      m[..4 * i] + s[4 * i..]
    }

    lemma PartlyEnds(s: Aes.Block, m: Aes.Block)
      ensures Partly(s, m, 0) == s && Partly(s, m, 4) == m
    {
    }

    lemma ColumnDone(s: Aes.Block, m: Aes.Block, i: nat)
      requires i < 4
      ensures var d := Partly(s, m, i);
              && d[4 * i..4 * i + 4] == s[4 * i..4 * i + 4]
              && d[..4 * i] + m[4 * i..4 * i + 4] + d[4 * i + 4..] == Partly(s, m, i + 1)
    {
    }

    lemma ColumnOf(s: Aes.Block, m: Aes.Block, i: nat)
      requires i < 4
      ensures m == Aes.MixColumns(s) ==> m[4 * i..4 * i + 4] == Aes.MixColumn(s[4 * i..4 * i + 4])
      ensures m == Aes.InvMixColumns(s) ==> m[4 * i..4 * i + 4] == Aes.InvMixColumn(s[4 * i..4 * i + 4])
    {
      hide Aes.MixColumn, Aes.InvMixColumn;
    }

    method MixColumns()
      requires Sized()
      modifies state
      ensures state[..] == Aes.MixColumns(old(state[..]))
    {
      hide Aes.MixColumn, Aes.MixColumns, Partly;
      ghost var s, m := state[..], Aes.MixColumns(state[..]);
      PartlyEnds(s, m);
      for i := 0 to 4
        invariant state[..] == Partly(s, m, i)
      {
        ColumnOf(s, m, i);
        ColumnDone(s, m, i);
        MixColumn(4 * i);
      }
    }

    method InvMixColumns()
      requires Sized()
      modifies state
      ensures state[..] == Aes.InvMixColumns(old(state[..]))
    {
      hide Aes.InvMixColumn, Aes.InvMixColumns, Partly;
      ghost var s, m := state[..], Aes.InvMixColumns(state[..]);
      PartlyEnds(s, m);
      for i := 0 to 4
        invariant state[..] == Partly(s, m, i)
      {
        ColumnOf(s, m, i);
        ColumnDone(s, m, i);
        InvMixColumn(4 * i);
      }
    }

    method Cipher()
      requires Sized()
      modifies state
      ensures state[..] == Aes.Cipher(roundKey[..], old(state[..]))
    {
      hide Aes.AddRoundKey, Aes.SubBytes, Aes.ShiftRows, Aes.MixColumns;
      ghost var w, s := roundKey[..], state[..];
      AddRoundKey(0);
      var round := 1;
      while round < Aes.ROUNDS
        invariant 1 <= round <= Aes.ROUNDS && state[..] == Aes.Forward(w, s, round - 1)
      {
        SubBytes();
        ShiftRows();
        MixColumns();
        AddRoundKey(round);
        round := round + 1;
      }
      SubBytes();
      ShiftRows();
      AddRoundKey(Aes.ROUNDS);
    }

    method InvCipher()
      requires Sized()
      modifies state
      ensures state[..] == Aes.InvCipher(roundKey[..], old(state[..]))
    {
      hide Aes.AddRoundKey, Aes.InvSubBytes, Aes.InvShiftRows, Aes.InvMixColumns;
      ghost var w, s := roundKey[..], state[..];
      AddRoundKey(Aes.ROUNDS);
      var round := Aes.ROUNDS - 1;
      while round > 0
        invariant 0 <= round < Aes.ROUNDS && state[..] == Aes.Backward(w, s, round)
      {
        InvShiftRows();
        InvSubBytes();
        AddRoundKey(round);
        InvMixColumns();
        round := round - 1;
      }
      InvShiftRows();
      InvSubBytes();
      AddRoundKey(0);
    }

    /** RotWord, SubWord and the round constant. */
    method CoreWord(t: array<bv8>, rcon: bv8)
      requires t.Length == 4
      modifies t
      ensures var w := Aes.SubWord(Aes.RotWord(old(t[..]))); t[..] == w[0 := w[0] ^ rcon]
    {
      hide SBox;
      var k := t[0];
      t[0] := t[1];
      t[1] := t[2];
      t[2] := t[3];
      t[3] := k;
      t[0], t[1], t[2], t[3] := SBox(t[0]), SBox(t[1]), SBox(t[2]), SBox(t[3]);
      t[0] := t[0] ^ rcon;
    }

    /** Word i of the schedule for i < 4. */
    method CopyWord(i: nat, key: Aes.Block)
      requires Sized() && i < 4 && roundKey[..4 * i] == key[..4 * i]
      modifies roundKey
      ensures roundKey[..4 * i + 4] == key[..4 * i + 4]
    {
      ghost var w := roundKey[..4 * i];
      roundKey[4 * i] := key[4 * i];
      roundKey[4 * i + 1] := key[4 * i + 1];
      roundKey[4 * i + 2] := key[4 * i + 2];
      roundKey[4 * i + 3] := key[4 * i + 3];
      assert roundKey[..4 * i] == w;
    }

    method KeyExpansion(key: Aes.Block)
      requires Sized()
      modifies roundKey
      ensures roundKey[..] == Aes.Expanded(key, 44)
    {
      hide Aes.NextWord;
      var i := 0;
      while i < 4
        invariant i <= 4 && roundKey[..4 * i] == key[..4 * i]
      {
        CopyWord(i, key);
        i := i + 1;
      }
      while i < 44
        invariant 4 <= i <= 44 && roundKey[..4 * i] == Aes.Expanded(key, i)
      {
        ExpandOne(i, Aes.Expanded(key, i));
        i := i + 1;
      }
    }

    /** Word i of the schedule. */
    method ExpandOne(i: nat, ghost w: Bytes8)
      requires Sized() && 4 <= i < 44 && |w| == 4 * i && roundKey[..4 * i] == w
      modifies roundKey
      ensures roundKey[..4 * i + 4] == w + Aes.NextWord(w, i)
    {
      hide Aes.SubWord, Aes.RotWord, Xor;
      var t := new bv8[4];
      FetchWord(i, t, w);
      if i % 4 == 0 {
        CoreWord(t, Aes.RCON[i / 4]);
      }
      XorWord(i, t, w);
    }

    /** The word before, into t. */
    method FetchWord(i: nat, t: array<bv8>, ghost w: Bytes8)
      requires Sized() && 4 <= i < 44 && |w| == 4 * i && roundKey[..4 * i] == w && t.Length == 4 && t != roundKey
      modifies t
      ensures t[..] == w[4 * i - 4..]
    {
      for j := 0 to 4
        invariant t[..j] == w[4 * i - 4..4 * i - 4 + j]
      {
        assert roundKey[(i - 1) * 4 + j] == roundKey[..4 * i][4 * i - 4 + j];
        t[j] := roundKey[(i - 1) * 4 + j];
      }
    }

    /** The last four stores of a turn. */
    method XorWord(i: nat, t: array<bv8>, ghost w: Bytes8)
      requires Sized() && 4 <= i < 44 && |w| == 4 * i && roundKey[..4 * i] == w && t.Length == 4 && t != roundKey
      modifies roundKey
      ensures roundKey[..4 * i + 4] == w + Xor(w[4 * i - 16..4 * i - 12], t[..])
    {
      ghost var back := w[4 * i - 16..4 * i - 12];
      ghost var n := Xor(back, t[..]);
      assert roundKey[..4 * i + 0] == w + n[..0];
      for j := 0 to 4
        invariant roundKey[..4 * i + j] == w + n[..j]
      {
        assert roundKey[4 * i - 16 + j] == (w + n[..j])[4 * i - 16 + j] == back[j];
        roundKey[4 * i + j] := roundKey[(i - 4) * 4 + j] ^ t[j];
      }
    }

    /** cr_aes_encode; the state is src itself. */
    method Encode(dst: array<bv8>, key: Aes.Block)
      requires Sized() && dst.Length == 16 && dst != roundKey
      modifies dst, state, roundKey
      ensures dst[..] == state[..] == Aes.Encrypted(key, old(state[..]))
    {
      hide Aes.Cipher, Aes.Expanded;
      KeyExpansion(key);
      Cipher();
      Copy(dst);
    }

    /** cr_aes_decode */
    method Decode(dst: array<bv8>, key: Aes.Block)
      requires Sized() && dst.Length == 16 && dst != roundKey
      modifies dst, state, roundKey
      ensures dst[..] == state[..] == Aes.Decrypted(key, old(state[..]))
    {
      hide Aes.InvCipher, Aes.Expanded;
      KeyExpansion(key);
      InvCipher();
      Copy(dst);
    }

    /** memcpy(dst, src, 16) */
    method Copy(dst: array<bv8>)
      requires Sized() && dst.Length == 16
      modifies dst
      ensures dst[..] == old(state[..]) == state[..]
    {
      for i := 0 to 16
        invariant dst[..i] == old(state[..i]) && (dst == state || state[..] == old(state[..]))
        invariant dst == state ==> state[..] == old(state[..])
      {
        dst[i] := state[i];
      }
    }
  }
}
