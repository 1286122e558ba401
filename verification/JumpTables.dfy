/** Jump tables of SWITCH in the constant pool and is_jumptable_reloc of il_streamer.c, which relocates them. */
module JumpTables {
  import opened Bytes
  import opened ConstantPool

  /** case constant (by its pool offset) and label. */
  datatype Case = Case(constant: word, label_: word)

  /** The contents of a jump table: sp_start_case, sp_label_case, sp_default_case. */
  datatype Table = Table(fallback: word, cases: seq<Case>)

  function WordBytes(w: word): seq<byte> {
    [w / 0x100, w % 0x100]
  }

  function TableBytes(t: Table): (b: seq<byte>)
    ensures |b| == 2 + 4 * |t.cases|
    decreases |t.cases|
  {
    if t.cases == [] then WordBytes(t.fallback)
    else
      var n := |t.cases| - 1;
      TableBytes(t.(cases := t.cases[..n])) + (WordBytes(t.cases[n].constant) + WordBytes(t.cases[n].label_))
  }

  lemma {:induction false} TableWords(t: Table, k: nat)
    requires k <= |t.cases|
    ensures Word(TableBytes(t), 0) == t.fallback
    ensures k < |t.cases| ==> Word(TableBytes(t), 2 + 4 * k) == t.cases[k].constant
    ensures k < |t.cases| ==> Word(TableBytes(t), 4 + 4 * k) == t.cases[k].label_
    decreases |t.cases|
  {
    var n := |t.cases| - 1;
    if n >= 0 {
      var init := t.(cases := t.cases[..n]);
      TableWords(init, if k < n then k else n);
      if k == n {
        var b, c := TableBytes(t), t.cases[n];
        assert b[2 + 4 * n..] == WordBytes(c.constant) + WordBytes(c.label_);
        assert b[2 + 4 * n] == b[2 + 4 * n..][0] && b[3 + 4 * n] == b[2 + 4 * n..][1];
        assert b[4 + 4 * n] == b[2 + 4 * n..][2] && b[5 + 4 * n] == b[2 + 4 * n..][3];
      }
    }
  }

  /** Changing case k changes four bytes of the table. */
  lemma {:induction false} ReplacedCase(t: Table, k: nat, c: Case)
    requires k < |t.cases|
    ensures var b := TableBytes(t);
            TableBytes(t.(cases := t.cases[k := c])) ==
            b[..2 + 4 * k] + (WordBytes(c.constant) + WordBytes(c.label_)) + b[6 + 4 * k..]
    decreases |t.cases|
  {
    hide TableBytes, WordBytes;
    var n := |t.cases| - 1;
    var init, t' := t.(cases := t.cases[..n]), t.(cases := t.cases[k := c]);
    LastCase(t);
    LastCase(t');
    var w := WordBytes(c.constant) + WordBytes(c.label_);
    if k < n {
      ReplacedCase(init, k, c);
      assert t'.(cases := t'.cases[..n]) == init.(cases := init.cases[k := c]);
      var last := WordBytes(t.cases[n].constant) + WordBytes(t.cases[n].label_);
      Spliced(TableBytes(init), TableBytes(init.(cases := init.cases[k := c])), last, 2 + 4 * k, w);
    } else {
      assert t'.(cases := t'.cases[..n]) == init;
    }
  }

  lemma LastCase(t: Table)
    requires t.cases != []
    ensures var n := |t.cases| - 1;
            var last := WordBytes(t.cases[n].constant) + WordBytes(t.cases[n].label_);
            |last| == 4 && TableBytes(t) == TableBytes(t.(cases := t.cases[..n])) + last
  {
  }

  /** A case after is_jumptable_reloc: the constant moves behind the code, both become relative to pc. */
  function RelocatedCase(c: Case, pc: nat, size: nat): Case {
    Case(Wrap16(c.constant + size - pc), Wrap16(c.label_ - pc))
  }

  /** Adding pc at run time undoes the relocation, provided code and constant fit into 16 bits. */
  lemma CaseIsFound(c: Case, pc: nat, size: nat)
    requires pc <= size && c.constant + size < BUFFER_SIZE
    ensures RelocatedCase(c, pc, size).constant + pc == c.constant + size
    ensures Wrap16(RelocatedCase(c, pc, size).label_ + pc) == c.label_
  {
    WrapAdd(c.label_ as int - pc, pc);
  }

  /** The table when is_jumptable_reloc has done the default and n cases. */
  function PartlyRelocated(t: Table, pc: nat, size: nat, n: nat): (r: Table)
    requires n <= |t.cases|
    ensures |r.cases| == |t.cases|
  {
    Table(Wrap16(t.fallback - pc),
          seq(|t.cases|,
              k requires 0 <= k < |t.cases| => if k < n then RelocatedCase(t.cases[k], pc, size) else t.cases[k]))
  }

  function Relocated(t: Table, pc: nat, size: nat): (r: Table)
    ensures |r.cases| == |t.cases|
  {
    PartlyRelocated(t, pc, size, |t.cases|)
  }

  lemma WordInside(a: seq<byte>, m: seq<byte>, c: seq<byte>, p: nat, v: word)
    requires p + 1 < |m|
    ensures Word(a + m + c, |a| + p) == Word(m, p)
    ensures WithWord(a + m + c, |a| + p, v) == a + WithWord(m, p, v) + c
  {
    hide WithWord;
    var l, r := WithWord(a + m + c, |a| + p, v), a + WithWord(m, p, v) + c;
    WordIs(WithWord(m, p, v), p, v);
    WordIs(l, |a| + p, v);
    forall q | 0 <= q < |l| ensures l[q] == r[q] {
      if q == |a| + p || q == |a| + p + 1 {
        assert r[q] == WithWord(m, p, v)[q - |a|];
      } else {
        assert l[q] == (a + m + c)[q];
      }
    }
  }

  lemma WordIs(b: seq<byte>, p: nat, v: word)
    requires p + 1 < |b| && Word(b, p) == v
    ensures b[p] == v / 0x100 && b[p + 1] == v % 0x100
  {
  }

  /** Two words written one behind the other. */
  lemma TwoWords(b: seq<byte>, p: nat, x: word, y: word)
    requires p + 4 <= |b|
    ensures WithWord(WithWord(b, p, x), p + 2, y) == b[..p] + (WordBytes(x) + WordBytes(y)) + b[p + 4..]
    ensures Word(WithWord(b, p, x), p + 2) == Word(b, p + 2)
  {
  }

  /** The stores of one turn of the relocation loop, on the bytes of the table. */
  lemma RelocateCase(t: Table, pc: nat, size: nat, k: nat)
    requires k < |t.cases|
    ensures var b, c := TableBytes(PartlyRelocated(t, pc, size, k)), RelocatedCase(t.cases[k], pc, size);
            && Word(b, 2 + 4 * k) == t.cases[k].constant && Word(b, 4 + 4 * k) == t.cases[k].label_
            && WithWord(WithWord(b, 2 + 4 * k, c.constant), 4 + 4 * k, c.label_)
               == TableBytes(PartlyRelocated(t, pc, size, k + 1))
  {
    hide TableBytes, WithWord, Word, WordBytes, RelocatedCase;
    var p, c := PartlyRelocated(t, pc, size, k), RelocatedCase(t.cases[k], pc, size);
    TableWords(p, k);
    NextCase(t, pc, size, k);
    ReplacedCase(p, k, c);
    TwoWords(TableBytes(p), 2 + 4 * k, c.constant, c.label_);
  }

  lemma NextCase(t: Table, pc: nat, size: nat, k: nat)
    requires k < |t.cases|
    ensures var p := PartlyRelocated(t, pc, size, k);
            && p.cases[k] == t.cases[k]
            && PartlyRelocated(t, pc, size, k + 1) == p.(cases := p.cases[k := RelocatedCase(t.cases[k], pc, size)])
  {
    hide RelocatedCase, Wrap16;
    var p := PartlyRelocated(t, pc, size, k);
    assert PartlyRelocated(t, pc, size, k + 1).cases == p.cases[k := RelocatedCase(t.cases[k], pc, size)];
  }

  lemma {:induction false} RelocateDefault(t: Table, w: word)
    ensures Word(TableBytes(t), 0) == t.fallback
    ensures WithWord(TableBytes(t), 0, w) == TableBytes(t.(fallback := w))
    decreases |t.cases|
  {
    TableWords(t, |t.cases|);
    var n := |t.cases| - 1;
    if n >= 0 {
      var init := t.(cases := t.cases[..n]);
      RelocateDefault(init, w);
      assert t.(fallback := w).(cases := t.cases[..n]) == init.(fallback := w);
      var last := WordBytes(t.cases[n].constant) + WordBytes(t.cases[n].label_);
      assert WithWord(TableBytes(init) + last, 0, w) == WithWord(TableBytes(init), 0, w) + last;
    }
  }

  lemma NoCaseYet(t: Table, pc: nat, size: nat)
    ensures PartlyRelocated(t, pc, size, 0) == t.(fallback := Wrap16(t.fallback - pc))
  {
    hide Wrap16;
    assert PartlyRelocated(t, pc, size, 0).cases == t.cases;
  }

  lemma DefaultIsRelocated(t: Table, pc: nat, size: nat)
    ensures WithWord(TableBytes(t), 0, Wrap16(Word(TableBytes(t), 0) + (0 - pc as int)))
         == TableBytes(PartlyRelocated(t, pc, size, 0))
  {
    hide *;
    RelocateDefault(t, Wrap16(t.fallback - pc));
    NoCaseYet(t, pc, size);
  }

  // ---------- is_jumptable_reloc on bytes ----------

  /** A word of a buffer changed by some amount, modulo 2^16. */
  function Shifted(b: seq<byte>, p: nat, change: int): (r: seq<byte>)
    requires p + 1 < |b|
    ensures |r| == |b|
  {
    WithWord(b, p, Wrap16(Word(b, p) + change))
  }

  /** The loop over the cases from byte i of a table of n bytes at o on. */
  function CasesShifted(b: seq<byte>, o: nat, i: nat, n: nat, pc: nat, size: nat): (r: seq<byte>)
    requires i >= 2
    ensures |r| == |b| && (o + i <= |b| ==> r[..o + i] == b[..o + i])
    decreases n - i
  {
    if i < n && o + i + 4 <= |b| then
      var c := Shifted(Shifted(b, o + i, size - pc), o + i + 2, 0 - pc);
      var r := CasesShifted(c, o, i + 4, n, pc, size);
      SamePrefix(r, c, o + i + 4, 0, o + i);
      r
    else b
  }

  lemma CasesUnfold(b: seq<byte>, o: nat, i: nat, n: nat, pc: nat, size: nat)
    requires i >= 2
    ensures i < n && o + i + 4 <= |b| ==>
      CasesShifted(b, o, i, n, pc, size)
      == CasesShifted(Shifted(Shifted(b, o + i, size - pc), o + i + 2, 0 - pc), o, i + 4, n, pc, size)
    ensures i >= n ==> CasesShifted(b, o, i, n, pc, size) == b
    ensures i % 4 == 2 && i < n ==> i + 4 <= Extent(n)
    ensures 2 <= Extent(n)
  {
  }

  /** Bytes of a table that the loop touches when its length byte is n. */
  function Extent(n: nat): (e: nat)
    ensures e % 4 == 2 && n <= e < n + 4
  {
    if n <= 2 then 2 else n + (2 - n) % 4
  }

  /** The buffer after is_jumptable_reloc of the entry at `offset`: one length byte is taken for granted. */
  function TableShifted(b: seq<byte>, offset: nat, pc: nat, size: nat): (r: seq<byte>)
    requires offset + 2 < |b|
    ensures |r| == |b|
  {
    CasesShifted(Shifted(b, offset + 1, 0 - pc), offset + 1, 2, b[offset], pc, size)
  }

  /** The buffer with m between the bytes a and c. */
  function Framed(a: seq<byte>, m: seq<byte>, c: seq<byte>): seq<byte> {
    a + m + c
  }

  lemma TableIsFramed(b: seq<byte>, offset: nat, t: seq<byte>)
    requires |t| < 0x80 && offset + 1 + |t| <= |b| && b[offset..offset + 1 + |t|] == [|t|] + t
    ensures b[offset] == |t| && b == Framed(b[..offset + 1], t, b[offset + 1 + |t|..])
  {
    assert b[offset] == b[offset..offset + 1 + |t|][0];
    assert b[offset + 1..offset + 1 + |t|] == b[offset..offset + 1 + |t|][1..] == t;
  }

  /** A word changed inside a table. */
  lemma ShiftedInside(a: seq<byte>, m: seq<byte>, c: seq<byte>, p: nat, change: int)
    requires p + 1 < |m|
    ensures |Framed(a, m, c)| == |a| + |m| + |c|
    ensures Shifted(Framed(a, m, c), |a| + p, change) == Framed(a, Shifted(m, p, change), c)
  {
    WordInside(a, m, c, p, Wrap16(Word(m, p) + change));
  }

  /** The loop turns a partly relocated table into the relocated one. */
  lemma {:induction false} CasesAreShifted(t: Table, pc: nat, size: nat, k: nat, a: seq<byte>, c: seq<byte>)
    requires k <= |t.cases|
    ensures CasesShifted(Framed(a, TableBytes(PartlyRelocated(t, pc, size, k)), c), |a|, 2 + 4 * k,
                         2 + 4 * |t.cases|, pc, size)
         == Framed(a, TableBytes(Relocated(t, pc, size)), c)
    decreases |t.cases| - k
  {
    hide TableBytes, Framed, Shifted, PartlyRelocated;
    if k < |t.cases| {
      OneCaseShifted(t, pc, size, k, a, c);
      CasesAreShifted(t, pc, size, k + 1, a, c);
      assert 2 + 4 * (k + 1) == 2 + 4 * k + 4;
    }
  }

  lemma OneCaseShifted(t: Table, pc: nat, size: nat, k: nat, a: seq<byte>, c: seq<byte>)
    requires k < |t.cases|
    ensures var b := Framed(a, TableBytes(PartlyRelocated(t, pc, size, k)), c);
      && |a| + 2 + 4 * k + 4 <= |b|
      && Shifted(Shifted(b, |a| + 2 + 4 * k, size - pc), |a| + 2 + 4 * k + 2, 0 - pc)
         == Framed(a, TableBytes(PartlyRelocated(t, pc, size, k + 1)), c)
  {
    hide TableBytes, Framed, PartlyRelocated, WithWord, Word, Wrap16;
    var m, q := TableBytes(PartlyRelocated(t, pc, size, k)), 2 + 4 * k;
    RelocateCase(t, pc, size, k);
    TwoWords(m, q, RelocatedCase(t.cases[k], pc, size).constant, 0);
    ShiftedInside(a, m, c, q, size - pc);
    ShiftedInside(a, Shifted(m, q, size - pc), c, q + 2, 0 - pc);
  }

  lemma TableExtent(t: Table)
    ensures Extent(|TableBytes(t)|) == |TableBytes(t)|
  {
    hide TableBytes;
    assert (2 - |TableBytes(t)|) % 4 == 0;
  }

  /** A table with a one-byte length is relocated as a table. */
  lemma ShortTableShifted(b: seq<byte>, offset: nat, t: Table, pc: nat, size: nat)
    requires |TableBytes(t)| < 0x80 && offset + 1 + |TableBytes(t)| <= |b|
    requires b[offset..offset + 1 + |TableBytes(t)|] == [|TableBytes(t)|] + TableBytes(t)
    ensures b[offset] == |TableBytes(t)|
    ensures TableShifted(b, offset, pc, size)
         == Framed(b[..offset + 1], TableBytes(Relocated(t, pc, size)), b[offset + 1 + |TableBytes(t)|..])
  {
    hide TableBytes, Framed, WithWord, Word, PartlyRelocated, Wrap16, CasesShifted, Extent;
    var a, c := b[..offset + 1], b[offset + 1 + |TableBytes(t)|..];
    TableIsFramed(b, offset, TableBytes(t));
    DefaultIsRelocated(t, pc, size);
    ShiftedInside(a, TableBytes(t), c, 0, 0 - pc);
    CasesAreShifted(t, pc, size, 0, a, c);
  }

  /** Replacing t by r in the first n bytes of a buffer. */
  lemma FramedFront(b: seq<byte>, n: nat, offset: nat, t: seq<byte>, r: seq<byte>)
    requires offset + 1 + |t| <= n <= |b| && |r| == |t|
    ensures b[..n][offset..offset + 1 + |t|] == b[offset..offset + 1 + |t|]
    ensures Framed(b[..offset + 1], r, b[offset + 1 + |t|..])[..n]
         == b[..n][..offset + 1] + r + b[..n][offset + 1 + |t|..]
  {
  }

  // ---------- tables with a longer length ----------

  /** The first three bytes of a long entry. */
  lemma LongEntry(v: Value)
    requires 0x80 <= |v| < 0x1_0000
    ensures |Entry(v)| > 2
    ensures if |v| < 0x100 then Entry(v)[0] == 0x81 && Word(Entry(v), 1) == 0x100 * |v| + v[0] as int
            else Entry(v)[0] == 0x82 && Word(Entry(v), 1) == |v|
  {
  }

  lemma SameHead(b: seq<byte>, offset: nat, e: seq<byte>)
    requires |e| > 2 && offset + |e| <= |b| && b[offset..offset + |e|] == e
    ensures b[offset] == e[0] && Word(b, offset + 1) == Word(e, 1)
  {
    var s := b[offset..offset + |e|];
    assert b[offset] == s[0] && b[offset + 1] == s[1] && b[offset + 2] == s[2];
  }

  /** The length byte stays and the word behind it is shifted. */
  lemma HeadShifted(b: seq<byte>, offset: nat, pc: nat, size: nat)
    requires offset + 2 < |b|
    ensures var r := TableShifted(b, offset, pc, size);
            r[offset] == b[offset] && Word(r, offset + 1) == Wrap16(Word(b, offset + 1) - pc)
  {
    hide Wrap16, CasesShifted, WithWord;
    var c := Shifted(b, offset + 1, 0 - pc);
    var r := TableShifted(b, offset, pc, size);
    SamePrefix(r, c, offset + 3, offset, offset + 3);
    SameHead(r, offset, c[offset..offset + 3]);
    SameHead(c, offset, c[offset..offset + 3]);
  }

  lemma WrapIs(x: int)
    requires -BUFFER_SIZE <= x < BUFFER_SIZE
    ensures Wrap16(x) == if x < 0 then x + BUFFER_SIZE else x
  {
  }

  /** The high byte of a word after a subtraction. */
  lemma HighByteStays(l: byte, h: byte, pc: word)
    ensures Wrap16(0x100 * l as int + h as int - pc) / 0x100 == l <==> Wrap16(h as int - pc) < 0x100
  {
    hide Wrap16;
    var x := 0x100 * l as int + h as int - pc;
    WrapIs(x);
    WrapIs(h as int - pc);
    assert Wrap16(x) / 0x100 == l <==> 0x100 * l as int <= Wrap16(x) < 0x100 * l as int + 0x100;
  }

  lemma StoredIs(r: seq<byte>, offset: nat)
    requires offset + 2 < |r|
    ensures r[offset] == 0x81 ==> StoredLength(r, offset) == Word(r, offset + 1) / 0x100
    ensures r[offset] == 0x82 ==> StoredLength(r, offset) == Word(r, offset + 1)
  {
    assert Word(r, offset + 1) / 0x100 == r[offset + 1];
  }

  /** The length of an entry of 128 bytes or more survives relocation if and only if pc does not reach into it. */
  lemma LongLengthSurvives(b: seq<byte>, offset: nat, v: Value, pc: word, size: nat)
    requires 0x80 <= |v| < 0x1_0000
    requires offset + |Entry(v)| <= |b| && b[offset..offset + |Entry(v)|] == Entry(v)
    ensures offset + 2 < |b|
    ensures StoredLength(TableShifted(b, offset, pc, size), offset) == |v|
            <==> if |v| < 0x100 then Wrap16(v[0] as int - pc) < 0x100 else pc == 0
  {
    hide Entry, Word, TableShifted, StoredLength, Wrap16;
    LongEntry(v);
    SameHead(b, offset, Entry(v));
    HeadShifted(b, offset, pc, size);
    StoredIs(TableShifted(b, offset, pc, size), offset);
    if |v| < 0x100 {
      HighByteStays(|v|, v[0], pc);
    } else {
      WrapIs(|v| - pc);
    }
  }

  /** The word behind that is shifted as the constant of the first case would be. */
  lemma SecondShifted(b: seq<byte>, offset: nat, pc: nat, size: nat)
    requires offset + 7 <= |b| && b[offset] > 2
    ensures Word(TableShifted(b, offset, pc, size), offset + 3) == Wrap16(Word(b, offset + 3) + size - pc)
  {
    hide Wrap16, CasesShifted, WithWord;
    var c, n := Shifted(b, offset + 1, 0 - pc), b[offset];
    CasesUnfold(c, offset + 1, 2, n, pc, size);
    var e := Shifted(c, offset + 3, size - pc);
    var f := Shifted(e, offset + 5, 0 - pc);
    var r := CasesShifted(f, offset + 1, 6, n, pc, size);
    WithWordElsewhere(b, offset + 1, Wrap16(Word(b, offset + 1) - pc), offset + 3, offset + 5);
    WithWordElsewhere(e, offset + 5, Wrap16(Word(e, offset + 5) - pc), offset + 3, offset + 5);
    SamePrefix(r, f, offset + 7, offset + 3, offset + 5);
    assert Word(r, offset + 3) == Word(r[offset + 3..offset + 5], 0) == Word(f, offset + 3);
  }

  /** The first two bytes of a constant, if it has as many. */
  lemma LoadedFront(r: seq<byte>, offset: nat)
    requires offset + 4 < |r| && (r[offset] == 0x81 || r[offset] == 0x82)
    ensures var l := LoadConstant(r, offset);
            l.Loaded? && |l.value| >= 2 ==>
              Word(l.value, 0) == Word(r, offset + if r[offset] == 0x81 then 2 else 3)
  {
    var o, n := offset + LengthBytes(r, offset), StoredLength(r, offset);
    if n >= 2 {
      assert FetchAll(r, o, n)[0] == Fetch(r, o + 0) && FetchAll(r, o, n)[1] == Fetch(r, o + 1);
    }
  }

  lemma EntryWords(b: seq<byte>, offset: nat, v: Value)
    requires 0x80 <= |v| < 0x1_0000
    requires offset + |Entry(v)| <= |b| && b[offset..offset + |Entry(v)|] == Entry(v)
    ensures offset + 7 <= |b| && b[offset] == if |v| < 0x100 then 0x81 else 0x82
    ensures Word(b, offset + 3) == Word(v, if |v| < 0x100 then 1 else 0)
    ensures |v| < 0x100 ==> b[offset + 1] == |v| && b[offset + 2] == v[0]
  {
    var e := Entry(v);
    assert forall q :: 0 <= q < |e| ==> b[offset + q] == b[offset..offset + |e|][q] == e[q];
    assert b[offset + 0] == e[0] && b[offset + 1] == e[1] && b[offset + 2] == e[2];
    assert b[offset + 3] == e[3] && b[offset + 4] == e[4];
  }

  /**
    SWITCH with a table of 256 bytes or more: what it takes for the default is the label plus the size of
    the code, so it never leads to the label.
    */
  lemma LongDefault(b: seq<byte>, offset: nat, v: Value, pc: word, size: nat)
    requires 0x100 <= |v| < 0x1_0000 && 0 < size < BUFFER_SIZE
    requires offset + |Entry(v)| <= |b| && b[offset..offset + |Entry(v)|] == Entry(v)
    ensures offset + 2 < |b|
    ensures var l := LoadConstant(TableShifted(b, offset, pc, size), offset);
            l.Loaded? && |l.value| >= 2 ==>
              && Wrap16(Word(l.value, 0) + pc) == Wrap16(Word(v, 0) + size)
              && Wrap16(Word(l.value, 0) + pc) != Word(v, 0)
  {
    hide Entry, Word, TableShifted, LoadConstant, Wrap16;
    EntryWords(b, offset, v);
    HeadShifted(b, offset, pc, size);
    SecondShifted(b, offset, pc, size);
    LoadedFront(TableShifted(b, offset, pc, size), offset);
    WrapAdd(Word(v, 0) as int + size - pc, pc);
    NeverFull(Word(v, 0), size);
  }

  lemma NeverFull(x: word, size: nat)
    requires 0 < size < BUFFER_SIZE
    ensures Wrap16(x + size) != x
  {
  }

  /**
    SWITCH with a table of 128 to 255 bytes: the default is read across the two words that were shifted,
    and leads to the label if and only if the high byte of the second makes up for that.
    */
  lemma MiddleDefault(b: seq<byte>, offset: nat, v: Value, pc: word, size: nat)
    requires 0x80 <= |v| < 0x100
    requires offset + |Entry(v)| <= |b| && b[offset..offset + |Entry(v)|] == Entry(v)
    ensures offset + 2 < |b|
    ensures var l := LoadConstant(TableShifted(b, offset, pc, size), offset);
            l.Loaded? && |l.value| >= 2 ==>
              (Wrap16(Word(l.value, 0) + pc) == Word(v, 0)
               <==> Wrap16(Word(v, 1) + size - pc) / 0x100 == Wrap16(0xFF * pc + v[1] as int))
  {
    hide Entry, TableShifted, LoadConstant, Wrap16, LengthBytes, StoredLength;
    EntryWords(b, offset, v);
    var r := TableShifted(b, offset, pc, size);
    HeadShifted(b, offset, pc, size);
    SecondShifted(b, offset, pc, size);
    LoadedFront(r, offset);
    Straddles(Word(b, offset + 1), Wrap16(Word(v, 1) + size - pc), pc, v[0], v[1]);
  }

  lemma WrapMultiple(x: int, m: int)
    ensures Wrap16(x + BUFFER_SIZE * m) == Wrap16(x)
  {
  }

  lemma WrapMoves(a: word, u: int, t: word, m: int)
    ensures Wrap16(a - u + t + BUFFER_SIZE * m) == a <==> t == Wrap16(u)
  {
    var w := Wrap16(u);
    var j := u / BUFFER_SIZE;
    assert u == w + BUFFER_SIZE * j;
    var x := a - w + t;
    hide Wrap16;
    WrapMultiple(x, m - j);
    assert a - u + t + BUFFER_SIZE * m == x + BUFFER_SIZE * (m - j);
    WrapIsNear(a, t - w);
  }

  lemma WrapIsNear(a: word, d: int)
    requires -BUFFER_SIZE < d < BUFFER_SIZE
    ensures Wrap16(a + d) == a <==> d == 0
  {
  }

  lemma LowByteOf(x: int)
    ensures Wrap16(x) % 0x100 == x - 0x100 * (x / 0x100)
  {
  }

  lemma LowByte(x: word, pc: word, h: byte) returns (m: int)
    requires x % 0x100 == h
    ensures 0x100 * (Wrap16(x - pc) % 0x100) + pc == 0x100 * h as int - 0xFF * pc + BUFFER_SIZE * m
  {
    hide Wrap16;
    LowByteOf(x - pc);
    m := Linear(x, pc, h, Wrap16(x - pc) % 0x100, x / 0x100, (x - pc) / 0x100);
  }

  lemma Linear(x: int, pc: int, h: int, a: int, q: int, k: int) returns (m: int)
    requires x == 0x100 * q + h && a == x - pc - 0x100 * k
    ensures 0x100 * a + pc == 0x100 * h - 0xFF * pc + BUFFER_SIZE * m
  {
    m := q - k;
  }

  /** Of a word x shifted by pc the low byte, of a word y the high byte: is it with pc the word of h and l? */
  lemma Straddles(x: word, y: word, pc: word, h: byte, l: byte)
    requires x % 0x100 == h
    ensures Wrap16(0x100 * (Wrap16(x - pc) % 0x100) + y / 0x100 + pc) == 0x100 * h as int + l as int
            <==> y / 0x100 == Wrap16(0xFF * pc + l as int)
  {
    hide Wrap16;
    var m := LowByte(x, pc, h);
    WrapMoves(0x100 * h as int + l as int, 0xFF * pc + l as int, y / 0x100, m);
  }

  /** The table of a SWITCH with n cases that all pick the first constant for label 0. */
  function Repeated(n: nat): (t: Table)
    ensures |t.cases| == n
  {
    Table(0, seq(n, _ => Case(0, 0)))
  }

  /**
    SWITCH at address 3 with 32 cases: what it loads is a table of 129 bytes in place of 130, and its
    default leads elsewhere than to the label 0 that the table names.
    */
  lemma LongTable(b: seq<byte>, offset: nat, size: nat)
    ensures |TableBytes(Repeated(32))| == 130 && Repeated(32).fallback == 0
    ensures var e := Entry(TableBytes(Repeated(32)));
            offset + |e| <= |b| && b[offset..offset + |e|] == e ==>
              && offset + 2 < |b|
              && var l := LoadConstant(TableShifted(b, offset, 3, size), offset);
                 l.Loaded? && |l.value| == 129 && Wrap16(Word(l.value, 0) + 3) != 0
  {
    hide Entry, TableShifted, StoredLength, TableBytes, LoadConstant;
    var v := TableBytes(Repeated(32));
    LongEntry(v);
    if offset + |Entry(v)| <= |b| && b[offset..offset + |Entry(v)|] == Entry(v) {
      SameHead(b, offset, Entry(v));
      HeadShifted(b, offset, 3, size);
      FirstByte(Repeated(32));
      LoadsLong(TableShifted(b, offset, 3, size), offset);
    }
  }

  /** What is loaded from an entry with a two-byte length, if that is at least 2. */
  lemma LoadsLong(r: seq<byte>, offset: nat)
    requires offset + 2 < |r| && r[offset] == 0x81 && r[offset + 1] >= 2
    ensures var l := LoadConstant(r, offset);
            l.Loaded? && |l.value| == r[offset + 1] as int && l.value[0] == r[offset + 2]
  {
    assert FetchAll(r, offset + 2, r[offset + 1] as int)[0] == Fetch(r, offset + 2 + 0);
  }

  lemma FirstByte(t: Table)
    ensures TableBytes(t)[0] == t.fallback / 0x100
  {
    hide TableBytes;
    TableWords(t, 0);
  }
}
