/** is_link_code of il_streamer.c and the way vm_stack.c resolves what it writes. */
module Linker {
  import opened Bytes
  import opened Isa
  import opened Layout
  import opened ConstantPool
  import opened JumpTables

  /** Operands the linker rewrites as code addresses. */
  predicate IsCodeRef(op: byte) {
    op == INS_CALL || op == INS_JMP || op == INS_JFALSE || op == INS_JTRUE
  }

  /** Operands the linker rewrites as pool addresses. */
  predicate IsPoolRef(op: byte) {
    op == INS_SWITCH || op == INS_OBJNEW || op == INS_OBJCONST || INS_EXTCALL0 <= op <= INS_EXTCALL15
  }

  /**
    What the linker is given: the code, the values of the constant pool and, for every SWITCH
    instruction i, its jump table and the number tab[i] of that table in the pool.
    */
  datatype Unit = Unit(code: seq<byte>, at: seq<nat>, pool: seq<Value>, tab: seq<nat>, table: seq<Table>) {

    function Count(): nat {
      if |at| == 0 then 0 else |at| - 1
    }

    function Op(i: nat): byte {
      OpAt(code, at, i)
    }

    /** The scan goes from instruction i to instruction i + 1. */
    ghost predicate Follows(i: nat)
      requires i + 1 < |at|
    {
      Adjoins(code, at, i)
    }

    ghost predicate Laid() {
      LaidOut(code, at) && |tab| == |table| == |at| - 1
    }

    predicate IsSwitch(i: nat) {
      i < Count() && Op(i) == INS_SWITCH
    }

    function Operand(i: nat): word
      requires i < |at| && at[i] + 2 < |code|
    {
      Word(code, at[i] + 1)
    }

    /** The operand of a SWITCH is its own jump table, short enough for a one-byte length. */
    ghost predicate HasTable(i: nat)
      requires Laid() && IsSwitch(i)
    {
      assert Follows(i);
      && tab[i] < |pool| && Operand(i) == Offset(pool, tab[i])
      && pool[tab[i]] == TableBytes(table[i]) && |pool[tab[i]]| < 0x80
    }

    ghost predicate Valid() {
      && Laid() && |code| + |Contents(pool)| < BUFFER_SIZE
      && (forall i: nat :: IsSwitch(i) ==> HasTable(i))
      && (forall i: nat, j: nat :: IsSwitch(i) && IsSwitch(j) && i != j ==> tab[i] != tab[j])
    }

    lemma Increasing(i: nat, j: nat)
      requires Laid() && i <= j < |at|
      ensures at[i] <= at[j] <= |code| && (i < j ==> at[i] < |code| && at[i] + LengthAt(code, at[i]) <= at[j])
    {
      StartsIncrease(code, at, i, j);
    }

    // ---------- the code ----------

    /** The operand of instruction i after linking. */
    ghost function LinkedOperand(i: nat): word
      requires Valid() && i < Count() && ThreeByte(Op(i))
    {
      assert Follows(i);
      if IsCodeRef(Op(i)) then Wrap16(Operand(i) - at[i])
      else if IsPoolRef(Op(i)) then Wrap16(Operand(i) + |code| - at[i])
      else Operand(i)
    }

    /** The bytes of instruction i after linking. */
    ghost function LinkedInstruction(i: nat): seq<byte>
      requires Valid() && i < Count()
    {
      assert Follows(i);
      var b := code[at[i]..at[i + 1]];
      if ThreeByte(Op(i)) then WithWord(b, 1, LinkedOperand(i)) else b
    }

    ghost function Linked(i: nat): (b: seq<byte>)
      requires Valid() && i <= Count()
      ensures |b| == at[i]
    {
      if i == 0 then []
      else
        assert Follows(i - 1);
        Linked(i - 1) + LinkedInstruction(i - 1)
    }

    lemma LinkedAppends(i: nat)
      requires Valid() && i < Count()
      ensures Linked(i + 1) == Linked(i) + LinkedInstruction(i)
    {
    }

    /** The code when the first i instructions are linked. */
    ghost function PartlyLinked(i: nat): (b: seq<byte>)
      requires Valid() && i <= Count() && at[i] <= |code|
      ensures |b| == |code|
    {
      Linked(i) + code[at[i]..]
    }

    lemma NothingLinked()
      requires Valid()
      ensures Count() + 1 == |at| && at[0] == 0 && PartlyLinked(0) == code && Pool(0) == pool
      ensures |code| + |Contents(pool)| < BUFFER_SIZE
    {
    }

    lemma ReadsInstruction(i: nat)
      requires Valid() && i < Count()
      ensures at[i] < |code| && at[i] < at[i + 1] == at[i] + LengthAt(code, at[i]) <= |code|
      ensures PartlyLinked(i)[at[i]] == Op(i) && LengthAt(PartlyLinked(i), at[i]) == LengthAt(code, at[i])
      ensures ThreeByte(Op(i)) ==> Word(PartlyLinked(i), at[i] + 1) == Operand(i)
      ensures IsCodeRef(Op(i)) || IsPoolRef(Op(i)) ==> ThreeByte(Op(i))
      ensures IsSwitch(i) <==> Op(i) == INS_SWITCH
      ensures IsCodeRef(Op(i)) ==> !IsSwitch(i)
      ensures IsCodeRef(Op(i)) ==> LinkedOperand(i) == Wrap16(Operand(i) as int - at[i])
      ensures IsPoolRef(Op(i)) ==> LinkedOperand(i) == Wrap16(Operand(i) as int + |code| - at[i])
    {
      assert Follows(i);
      var b := PartlyLinked(i);
      assert forall q :: at[i] <= q < |code| ==> b[q] == code[q];
    }

    lemma StartsAt(i: nat)
      requires Valid() && i < Count()
      ensures Follows(i) && at[i] < at[i + 1] <= |code| && (ThreeByte(Op(i)) ==> at[i + 1] == at[i] + 3)
    {
      assert Follows(i);
    }

    /** Only the operand of an instruction changes, and only that of a reference. */
    lemma InstructionLinked(i: nat)
      requires Valid() && i < Count()
      ensures at[i] < at[i + 1] <= |code|
      ensures var m := code[at[i]..at[i + 1]];
              if ThreeByte(Op(i)) then |m| == 3 && LinkedInstruction(i) == WithWord(m, 1, LinkedOperand(i))
              else LinkedInstruction(i) == m
      ensures !IsCodeRef(Op(i)) && !IsPoolRef(Op(i)) ==> LinkedInstruction(i) == code[at[i]..at[i + 1]]
    {
      hide LaidOut, LengthAt;
      StartsAt(i);
      var m := code[at[i]..at[i + 1]];
      if ThreeByte(Op(i)) && !IsCodeRef(Op(i)) && !IsPoolRef(Op(i)) {
        WordIs(m, 1, Operand(i));
        assert WithWord(m, 1, Operand(i)) == m;
      }
    }

    lemma PartlyLinkedAround(i: nat)
      requires Valid() && i < Count() && at[i] < at[i + 1] <= |code|
      ensures var m, c := code[at[i]..at[i + 1]], code[at[i + 1]..];
              && PartlyLinked(i) == Linked(i) + m + c && |Linked(i)| == at[i]
              && PartlyLinked(i + 1) == Linked(i) + LinkedInstruction(i) + c
    {
      hide Valid, LinkedInstruction;
      assert code[at[i]..] == code[at[i]..at[i + 1]] + code[at[i + 1]..];
    }

    /** Storing the linked operand of instruction i links one more instruction. */
    lemma LinkInstruction(i: nat)
      requires Valid() && i < Count()
      ensures at[i] <= at[i + 1] <= |code|
      ensures ThreeByte(Op(i)) ==>
                && at[i] + 3 == at[i + 1]
                && WithWord(PartlyLinked(i), at[i] + 1, LinkedOperand(i)) == PartlyLinked(i + 1)
      ensures !IsCodeRef(Op(i)) && !IsPoolRef(Op(i)) ==> PartlyLinked(i) == PartlyLinked(i + 1)
    {
      hide Valid, Linked, LinkedInstruction, LinkedOperand, PartlyLinked, WithWord, Word, Op;
      InstructionLinked(i);
      PartlyLinkedAround(i);
      if ThreeByte(Op(i)) {
        WordInside(Linked(i), code[at[i]..at[i + 1]], code[at[i + 1]..], 1, LinkedOperand(i));
      }
    }

    // ---------- the pool ----------

    /** The bytes of the table of SWITCH instruction i after linking. */
    ghost function RelocatedTable(i: nat): (v: Value)
      requires Valid() && IsSwitch(i)
      ensures tab[i] < |pool| && |v| == |pool[tab[i]]| < 0x80
    {
      assert HasTable(i);
      TableBytes(Relocated(table[i], at[i], |code|))
    }

    /** The pool when the first i instructions are linked. */
    ghost function Pool(i: nat): (vs: seq<Value>)
      requires Valid() && i <= Count()
      ensures |vs| == |pool| && forall k :: 0 <= k < |pool| ==> |vs[k]| == |pool[k]|
    {
      if i == 0 then pool
      else
        var vs := Pool(i - 1);
        if IsSwitch(i - 1) then
          assert HasTable(i - 1);
          vs[tab[i - 1] := RelocatedTable(i - 1)]
        else vs
    }

    /** Every table is relocated once, for its own SWITCH; all other constants stay as pushed. */
    lemma {:induction false} PoolIs(i: nat, k: nat)
      requires Valid() && i <= Count() && k < |pool|
      ensures forall j: nat :: IsSwitch(j) && j < i && tab[j] == k ==> Pool(i)[k] == RelocatedTable(j)
      ensures (forall j: nat :: IsSwitch(j) && j < i ==> tab[j] != k) ==> Pool(i)[k] == pool[k]
    {
      hide RelocatedTable, Contents;
      if i > 0 {
        PoolIs(i - 1, k);
        if IsSwitch(i - 1) {
          assert HasTable(i - 1);
        }
      }
    }

    lemma TableInPool(i: nat)
      requires Valid() && IsSwitch(i)
      ensures i < |tab| && i < |table| && tab[i] < |pool| && i + 1 < |at| && at[i] + 2 < |code| && i < Count()
      ensures Operand(i) == Offset(pool, tab[i])
      ensures |TableBytes(table[i])| < 0x80 && Pool(i)[tab[i]] == TableBytes(table[i])
      ensures Pool(i + 1) == Pool(i)[tab[i] := RelocatedTable(i)]
    {
      hide RelocatedTable, TableBytes;
      assert HasTable(i);
      PoolIs(i, tab[i]);
    }

    lemma UnlinkedTable(i: nat)
      requires Valid() && IsSwitch(i)
      ensures tab[i] < |pool| && i < |table| && pool[tab[i]] == TableBytes(table[i]) && |TableBytes(table[i])| < 0x80
    {
      assert HasTable(i);
    }

    /** The bytes of the pool before and after the table of the SWITCH instruction i is relocated. */
    lemma TableStep(i: nat)
      requires Valid() && IsSwitch(i)
      ensures tab[i] < |pool| && Operand(i) == Offset(pool, tab[i])
      ensures var c, t, o := Contents(Pool(i)), TableBytes(table[i]), Offset(pool, tab[i]);
              && |t| < 0x80 && o + 1 + |t| <= |c| == |Contents(pool)|
              && c[o..o + 1 + |t|] == [|t|] + t
              && Contents(Pool(i + 1)) == c[..o + 1] + RelocatedTable(i) + c[o + 1 + |t|..]
    {
      hide RelocatedTable, Contents, Valid, HasTable, Pool, TableBytes;
      TableInPool(i);
      var vs, k, r := Pool(i), tab[i], RelocatedTable(i);
      var t: Value := vs[k];
      SameOffsets(pool, vs, k);
      SameOffsets(pool, vs, |vs|);
      assert vs[..|vs|] == vs && pool[..|vs|] == pool;
      EntryAt(vs, k);
      ReplacedValue(vs, k, r);
    }

    lemma PoolKept(i: nat)
      requires Valid() && i < Count()
      ensures !IsSwitch(i) ==> Pool(i + 1) == Pool(i)
    {
    }

    /** The scan ends exactly behind the last instruction. */
    lemma ScanAt(i: nat)
      requires Valid() && i <= Count()
      ensures at[0] == 0 && at[i] <= |code| && (at[i] == |code| <==> i == Count())
      ensures i < Count() ==> at[i] < at[i + 1] <= |code|
      ensures i == Count() ==> PartlyLinked(i) == Linked(i) && Image() == PartlyLinked(i) + Contents(Pool(i))
    {
      Increasing(i, Count());
      if i < Count() {
        assert Follows(i);
      }
    }

    /** The finished image: linked code followed by the relocated pool. */
    ghost function Image(): (b: seq<byte>)
      requires Valid()
    {
      Linked(Count()) + Contents(Pool(Count()))
    }

    // ---------- what the virtual machine makes of the image ----------

    lemma {:induction false} LinkedPrefix(i: nat, j: nat)
      requires Valid() && i <= j <= Count()
      ensures at[i] <= at[j] && Linked(j)[..at[i]] == Linked(i)
      decreases j
    {
      hide LinkedInstruction, HasTable;
      if i < j {
        LinkedPrefix(i, j - 1);
        assert Follows(j - 1);
        assert Linked(j)[..at[i]] == Linked(j - 1)[..at[i]];
      }
    }

    /** The image holds the linked operand of every instruction at its place. */
    lemma OperandInImage(i: nat)
      requires Valid() && i < Count() && ThreeByte(Op(i))
      ensures at[i] + 2 < |code| <= |Image()| && Word(Image(), at[i] + 1) == LinkedOperand(i)
      ensures Image()[at[i]] == Op(i)
    {
      hide LinkedOperand, Contents, Pool, Valid, LaidOut, LinkedInstruction, Word;
      StartsAt(i);
      LinkedAll();
      LinkedPrefix(i + 1, Count());
      LinkedBytes(i);
      var b, m := Image(), LinkedInstruction(i);
      assert b[..at[i + 1]] == Linked(i) + m;
      OperandOf(b, Linked(i), m);
    }

    lemma LinkedBytes(i: nat)
      requires Valid() && i < Count() && ThreeByte(Op(i))
      ensures var m := LinkedInstruction(i); |m| == 3 && m[0] == Op(i) && Word(m, 1) == LinkedOperand(i)
      ensures Linked(i + 1) == Linked(i) + LinkedInstruction(i)
    {
      hide LinkedOperand, HasTable;
      StartsAt(i);
    }

    lemma LinkedAll()
      requires Valid()
      ensures |Linked(Count())| == |code|
    {
    }

    /** The image holds every entry of the linked pool behind the code. */
    lemma EntryInImage(k: nat)
      requires Valid() && k < |pool|
      ensures var e, o := Entry(Pool(Count())[k]), |code| + Offset(pool, k);
              o + |e| <= |Image()| && Image()[o..o + |e|] == e
    {
      hide Pool, Linked, Valid, Entry, Contents, LinkedInstruction;
      LinkedAll();
      var vs := Pool(Count());
      SameOffsets(pool, vs, k);
      EntryAt(vs, k);
      var e, o := Entry(vs[k]), Offset(pool, k);
      assert Image()[|code| + o..|code| + o + |e|] == Contents(vs)[o..o + |e|];
    }

    /** CALL, JMP and JFALSE reach the address they held before linking. */
    lemma JumpsResolve(i: nat)
      requires Valid() && i < Count() && IsCodeRef(Op(i))
      ensures at[i] + 2 < |Image()| && JumpTarget(Image(), at[i]) == Operand(i)
    {
      hide Valid, LinkedOperand, Image, LinkedInstruction;
      OperandInImage(i);
      ReadsInstruction(i);
      WrapAdd(Operand(i) as int - at[i], at[i]);
    }

    ghost predicate IsTable(k: nat) {
      exists i: nat :: i < |tab| && IsSwitch(i) && tab[i] == k
    }

    /** A pool reference at instruction i finds its entry although its operand was wrapped to 16 bits. */
    lemma PoolAddress(i: nat, k: nat)
      requires Valid() && i < Count() && IsPoolRef(Op(i)) && k < |pool| && Operand(i) == Offset(pool, k)
      ensures |pool[k]| < BUFFER_SIZE
      ensures at[i] + 2 < |Image()| && Word(Image(), at[i] + 1) + at[i] == |code| + Offset(pool, k)
    {
      hide Valid, LinkedOperand, Image, Contents, LinkedInstruction;
      OperandInImage(i);
      ReadsInstruction(i);
      ConstantFits(k);
    }

    lemma OnlyTablesChange(k: nat)
      requires Valid() && k < |pool| && !IsTable(k)
      ensures Pool(Count())[k] == pool[k]
    {
      PoolIs(Count(), k);
    }

    /** OBJCONST, OBJNEW and EXTCALL load the value that was pushed. */
    lemma ConstantsResolve(i: nat, k: nat)
      requires Valid() && i < Count() && IsPoolRef(Op(i)) && k < |pool| && Operand(i) == Offset(pool, k) && !IsTable(k)
      ensures at[i] + 2 < |Image()|
      ensures ConstantOf(Image(), at[i]) == if |pool[k]| <= VA_OBJECT_MAX_SIZE then Loaded(pool[k]) else OutOfBounds
    {
      hide Valid, Image, Pool, Entry, Contents, Word, LoadConstant, RelocatedTable;
      OnlyTablesChange(k);
      PoolAddress(i, k);
      EntryInImage(k);
      LoadsWhatWasPushed(Image(), |code| + Offset(pool, k), pool[k]);
    }

    /** pick[k] is the pool entry of the constant of case k. */
    ghost predicate Picks(i: nat, pick: seq<nat>)
      requires i < |table|
    {
      && |pick| == |table[i].cases|
      && forall k :: 0 <= k < |pick| ==> PicksOne(table[i].cases[k], pick[k])
    }

    ghost predicate PicksOne(c: Case, k: nat) {
      k < |pool| && c.constant == Offset(pool, k) && |pool[k]| <= VA_OBJECT_MAX_SIZE && !IsTable(k)
    }

    /** The meaning of the table before linking, from case k on. */
    ghost function Chosen(i: nat, pick: seq<nat>, matches: seq<byte> -> bool, k: nat): word
      requires i < |table| && Picks(i, pick) && k <= |pick|
      decreases |pick| - k
    {
      if k == |pick| then table[i].fallback
      else
        assert PicksOne(table[i].cases[k], pick[k]);
        if matches(pool[pick[k]]) then table[i].cases[k].label_ else Chosen(i, pick, matches, k + 1)
    }

    /** Case k of a linked table finds its constant and leads where it led before linking. */
    lemma CaseResolves(i: nat, k: nat, p: nat)
      requires Valid() && IsSwitch(i) && i < |table| && k < |table[i].cases| && PicksOne(table[i].cases[k], p)
      ensures var b, c := RelocatedTable(i), table[i].cases[k];
              && |b| == 2 + 4 * |table[i].cases|
              && LoadConstant(Image(), Word(b, 2 + 4 * k) + at[i]) == Loaded(pool[p])
              && Wrap16(Word(b, 4 + 4 * k) + at[i]) == c.label_
    {
      hide Wrap16, Word, RelocatedCase, TableBytes, Relocated, LoadConstant, Valid, Image, Pool, Entry, RelocatedTable;
      var c, size := table[i].cases[k], |code|;
      RelocatedTableIs(i, k);
      TableWords(Relocated(table[i], at[i], size), k);
      ConstantFits(p);
      CaseIsFound(c, at[i], size);
      OnlyTablesChange(p);
      EntryInImage(p);
      LoadsWhatWasPushed(Image(), size + Offset(pool, p), pool[p]);
    }

    lemma RelocatedTableBytes(i: nat)
      requires Valid() && IsSwitch(i)
      ensures i < |at| && i < |table| && RelocatedTable(i) == TableBytes(Relocated(table[i], at[i], |code|))
    {
    }

    lemma RelocatedTableIs(i: nat, k: nat)
      requires Valid() && IsSwitch(i) && k < |table[i].cases|
      ensures i < |at| && at[i] <= |code| && RelocatedTable(i) == TableBytes(Relocated(table[i], at[i], |code|))
      ensures Relocated(table[i], at[i], |code|).cases[k] == RelocatedCase(table[i].cases[k], at[i], |code|)
    {
      Increasing(i, Count());
    }

    lemma ConstantFits(p: nat)
      requires Valid() && p < |pool|
      ensures |code| + Offset(pool, p) < BUFFER_SIZE && |pool[p]| < BUFFER_SIZE
    {
      EntryAt(pool, p);
    }

    lemma ChosenUnfolds(i: nat, pick: seq<nat>, matches: seq<byte> -> bool, k: nat)
      requires i < |table| && Picks(i, pick) && k <= |pick|
      ensures |pick| == |table[i].cases|
      ensures k < |pick| ==>
                && PicksOne(table[i].cases[k], pick[k]) && pick[k] < |pool|
                && (Chosen(i, pick, matches, k) ==
                    if matches(pool[pick[k]]) then table[i].cases[k].label_ else Chosen(i, pick, matches, k + 1))
      ensures k == |pick| ==> Chosen(i, pick, matches, k) == table[i].fallback
    {
      assert k < |pick| ==> PicksOne(table[i].cases[k], pick[k]);
    }

    lemma FallbackResolves(i: nat)
      requires Valid() && IsSwitch(i)
      ensures i < |at| && i < |table| && |RelocatedTable(i)| == 2 + 4 * |table[i].cases|
      ensures Wrap16(Word(RelocatedTable(i), 0) + at[i]) == table[i].fallback
    {
      hide Valid, TableBytes, RelocatedTable, Word, Wrap16;
      RelocatedTableBytes(i);
      TableWords(Relocated(table[i], at[i], |code|), 0);
      WrapAdd(table[i].fallback as int - at[i], at[i]);
      WrapFits(table[i].fallback);
    }

    lemma {:induction false} CasesResolve(i: nat, pick: seq<nat>, matches: seq<byte> -> bool, k: nat)
      requires Valid() && IsSwitch(i) && Picks(i, pick) && k <= |pick|
      ensures SwitchTarget(Image(), RelocatedTable(i), at[i], 2 + 4 * k, matches) == Chosen(i, pick, matches, k)
      decreases |pick| - k
    {
      hide *;
      FallbackResolves(i);
      ChosenUnfolds(i, pick, matches, k);
      SwitchUnfolds(Image(), RelocatedTable(i), at[i], k, matches);
      if k < |pick| {
        CaseResolves(i, k, pick[k]);
        CasesResolve(i, pick, matches, k + 1);
      }
    }

    /** SWITCH loads its own linked table and goes where the table before linking says. */
    lemma SwitchesResolve(i: nat, pick: seq<nat>, matches: seq<byte> -> bool)
      requires Valid() && IsSwitch(i) && Picks(i, pick)
      ensures at[i] + 2 < |Image()|
      ensures ConstantOf(Image(), at[i]) == Loaded(RelocatedTable(i))
      ensures SwitchTarget(Image(), RelocatedTable(i), at[i], 2, matches) == Chosen(i, pick, matches, 0)
    {
      hide Valid, Image, Pool, Entry, Contents, LoadConstant, RelocatedTable, Picks, TableBytes, Word;
      TableInPool(i);
      PoolAddress(i, tab[i]);
      EntryInImage(tab[i]);
      PoolIs(Count(), tab[i]);
      LoadsWhatWasPushed(Image(), |code| + Offset(pool, tab[i]), RelocatedTable(i));
      CasesResolve(i, pick, matches, 0);
    }
  }

  /** vm_set_pc(index + vm_get_pc()) for CALL, JMP and the taken JFALSE. */
  function JumpTarget(image: seq<byte>, pc: nat): word
    requires pc + 2 < |image|
  {
    Wrap16(Word(image, pc + 1) + pc)
  }

  /** vm_load_constant(index + vm_get_pc()) */
  function ConstantOf(image: seq<byte>, pc: nat): Loaded
    requires pc + 2 < |image|
  {
    LoadConstant(image, Word(image, pc + 1) + pc)
  }

  /**
    The SWITCH case of vm_decode from byte psw of the loaded table on; `matches` says which
    constants compare equal to the object popped. The null object never does.
    */
  function SwitchTarget(image: seq<byte>, table: seq<byte>, pc: nat, psw: nat, matches: seq<byte> -> bool): word
    requires |table| >= 2
    decreases |table| - psw
  {
    if psw + 4 > |table| then Wrap16(Word(table, 0) + pc)
    else
      var op2 := LoadConstant(image, Word(table, psw) + pc);
      if op2.Loaded? && matches(op2.value) then Wrap16(Word(table, psw + 2) + pc)
      else SwitchTarget(image, table, pc, psw + 4, matches)
  }

  lemma SwitchUnfolds(image: seq<byte>, table: seq<byte>, pc: nat, k: nat, matches: seq<byte> -> bool)
    requires |table| >= 2 + 4 * k
    ensures |table| == 2 + 4 * k ==> SwitchTarget(image, table, pc, 2 + 4 * k, matches) == Wrap16(Word(table, 0) + pc)
    ensures |table| >= 6 + 4 * k ==>
              var op2 := LoadConstant(image, Word(table, 2 + 4 * k) + pc);
              (SwitchTarget(image, table, pc, 2 + 4 * k, matches) ==
               if op2.Loaded? && matches(op2.value) then Wrap16(Word(table, 4 + 4 * k) + pc)
               else SwitchTarget(image, table, pc, 2 + 4 * (k + 1), matches))
  {
    assert 2 + 4 * k + 4 == 2 + 4 * (k + 1);
  }

  /** The loop of the SWITCH case. */
  method Switch(image: seq<byte>, table: seq<byte>, pc: nat, matches: seq<byte> -> bool) returns (target: word)
    requires |table| >= 2 && exists n: nat :: |table| == 2 + 4 * n
    ensures target == SwitchTarget(image, table, pc, 2, matches)
  {
    ghost var n: nat :| |table| == 2 + 4 * n;
    ghost var k: nat := 0;
    var psw := 2;
    while psw < |table|
      invariant psw == 2 + 4 * k && k <= n
      invariant SwitchTarget(image, table, pc, psw, matches) == SwitchTarget(image, table, pc, 2, matches)
    {
      var op2 := LoadConstant(image, Word(table, psw) + pc);
      if op2.Loaded? && matches(op2.value) {
        return Wrap16(Word(table, psw + 2) + pc);
      }
      psw, k := psw + 4, k + 1;
    }
    return Wrap16(Word(table, 0) + pc);
  }

  /** An instruction m of three bytes behind a in b. */
  lemma OperandOf(b: seq<byte>, a: seq<byte>, m: seq<byte>)
    requires |m| == 3 && |a| + 3 <= |b| && b[..|a| + 3] == a + m
    ensures b[|a|] == m[0] && Word(b, |a| + 1) == Word(m, 1)
  {
    var c := b[..|a| + 3];
    assert b[|a|] == c[|a|] && b[|a| + 1] == c[|a| + 1] && b[|a| + 2] == c[|a| + 2];
  }

  class Linker {
    const code: array<byte>     // _istream_code_buffer
    const data: array<byte>     // _istream_data_buffer
    var cpindex: nat

    constructor (code: array<byte>, data: array<byte>, cpindex: nat)
      ensures this.code == code && this.data == data && this.cpindex == cpindex
    {
      this.code, this.data, this.cpindex := code, data, cpindex;
    }

    /** is_jumptable_reloc */
    method RelocateTable(pc: nat, offset: nat, size: nat)
      requires offset < data.Length && offset + 1 + Extent(data[offset]) <= data.Length
      modifies data
      ensures data[..] == TableShifted(old(data[..]), offset, pc, size)
    {
      hide Shifted, CasesShifted, Extent;
      ghost var b := data[..];
      CasesUnfold(Shifted(b, offset + 1, 0 - pc), offset + 1, 2, b[offset], pc, size);
      var cpSize := data[offset];
      ShiftWord(offset + 1, 0 - pc as int);
      var i := 2;
      while i < cpSize
        invariant i % 4 == 2 && i <= Extent(cpSize)
        invariant CasesShifted(data[..], offset + 1, i, cpSize, pc, size) == TableShifted(b, offset, pc, size)
      {
        CasesUnfold(data[..], offset + 1, i, cpSize, pc, size);
        ShiftWord(offset + 1 + i, size - pc);
        ShiftWord(offset + 1 + i + 2, 0 - pc as int);
        i := i + 4;
      }
      CasesUnfold(data[..], offset + 1, i, cpSize, pc, size);
    }

    /** One access of is_jumptable_reloc: load a word, change it, store it. */
    method ShiftWord(p: nat, change: int)
      requires p + 1 < data.Length
      modifies data
      ensures data[..] == Shifted(old(data[..]), p, change)
    {
      var index := Word(data[..], p);
      StoreWord(data, p, Wrap16(index + change));
    }

    /** What the scan keeps: i instructions of u and their tables are linked. */
    ghost predicate Scanning(u: Unit, i: nat)
      reads this, code, data
    {
      && code != data && code.Length == data.Length == BUFFER_SIZE && u.Valid() && i <= u.Count() && u.at[i] <= |u.code|
      && code[..|u.code|] == u.PartlyLinked(i)
      && cpindex == |Contents(u.pool)| && data[..cpindex] == Contents(u.Pool(i))
    }

    lemma ScanFacts(u: Unit, i: nat)
      requires Scanning(u, i)
      ensures code != data && code.Length == data.Length == BUFFER_SIZE && u.Valid() && i <= u.Count() < |u.at|
      ensures u.at[i] <= |u.code| && |u.code| + cpindex < BUFFER_SIZE && cpindex == |Contents(u.pool)|
      ensures code[..|u.code|] == u.PartlyLinked(i) && data[..cpindex] == Contents(u.Pool(i))
    {
    }

    lemma ScanGoesOn(u: Unit, i: nat)
      requires code != data && code.Length == data.Length == BUFFER_SIZE && u.Valid() && i <= u.Count()
      requires u.at[i] <= |u.code| && code[..|u.code|] == u.PartlyLinked(i)
      requires cpindex == |Contents(u.pool)| && data[..cpindex] == Contents(u.Pool(i))
      ensures Scanning(u, i)
    {
    }

    /** The 16-bit operand of the instruction at pc. */
    method LoadOperand(pc: nat, ghost u: Unit, ghost i: nat) returns (index: word)
      requires u.Valid() && i < u.Count() && pc == u.at[i] <= |u.code| <= code.Length && ThreeByte(u.Op(i))
      requires code[..|u.code|] == u.PartlyLinked(i)
      ensures index == u.Operand(i)
    {
      u.ReadsInstruction(i);
      WithWordFront(code[..], pc + 1, 0, |u.code|);
      index := Word(code[..], pc + 1);
    }

    /** The operand of the instruction at pc is replaced. */
    method StoreOperand(pc: nat, v: word, ghost u: Unit, ghost i: nat)
      requires u.Valid() && i < u.Count() && pc == u.at[i] <= |u.code| <= code.Length && ThreeByte(u.Op(i))
      requires code[..|u.code|] == u.PartlyLinked(i) && v == u.LinkedOperand(i)
      modifies code
      ensures u.at[i + 1] <= |u.code| && code[..|u.code|] == u.PartlyLinked(i + 1)
    {
      u.LinkInstruction(i);
      hide u.PartlyLinked, u.LinkedOperand, WithWord;
      WithWordFront(code[..], pc + 1, v, |u.code|);
      StoreWord(code, pc + 1, v);
    }

    /** The jump table of the SWITCH at pc. */
    method RelocateOwnTable(pc: nat, offset: nat, size: nat, ghost u: Unit, ghost i: nat)
      requires data.Length == BUFFER_SIZE && cpindex == |Contents(u.pool)| < BUFFER_SIZE
      requires u.Valid() && i < u.Count() && pc == u.at[i] && size == |u.code|
      requires u.IsSwitch(i) && offset == u.Operand(i)
      requires data[..cpindex] == Contents(u.Pool(i))
      modifies data
      ensures data[..cpindex] == Contents(u.Pool(i + 1))
    {
      hide Contents, Relocated, u.Valid, u.Pool, u.HasTable, TableBytes, u.RelocatedTable, Framed, TableShifted;
      u.TableStep(i);
      u.RelocatedTableBytes(i);
      ghost var t, d := u.table[i], data[..];
      FramedFront(d, cpindex, offset, TableBytes(t), u.RelocatedTable(i));
      ShortTableShifted(d, offset, t, pc, size);
      TableExtent(t);
      RelocateTable(pc, offset, size);
    }

    /** CALL, JMP, JFALSE and JTRUE in the switch of is_link_code. */
    method LinkCodeRef(pc: nat, size: nat, ghost u: Unit, ghost i: nat)
      requires Scanning(u, i) && i < u.Count() && pc == u.at[i] && size == |u.code| && IsCodeRef(u.Op(i))
      modifies code
      ensures Scanning(u, i + 1)
    {
      hide *;
      ScanFacts(u, i);
      u.PoolKept(i);
      u.ReadsInstruction(i);
      var index := LoadOperand(pc, u, i);
      StoreOperand(pc, Wrap16(index - pc), u, i);
      ScanGoesOn(u, i + 1);
    }

    /** SWITCH, OBJNEW, OBJCONST and EXTCALL in the switch of is_link_code. */
    method LinkPoolRef(pc: nat, size: nat, ghost u: Unit, ghost i: nat)
      requires Scanning(u, i) && i < u.Count() && pc == u.at[i] && size == |u.code| && IsPoolRef(u.Op(i))
      modifies code, data
      ensures Scanning(u, i + 1)
    {
      hide *;
      ScanFacts(u, i);
      u.PoolKept(i);
      u.ReadsInstruction(i);
      var index := LoadOperand(pc, u, i);
      assert code[pc] == code[..size][pc];
      if code[pc] == INS_SWITCH {
        RelocateOwnTable(pc, index, size, u, i);
      }
      WrapAdd(index as int + size, 0 - pc as int);
      index := Wrap16(index + size);
      StoreOperand(pc, Wrap16(index - pc), u, i);
      ScanGoesOn(u, i + 1);
    }

    /** The switch of is_link_code. */
    method LinkOne(pc: nat, size: nat, ghost u: Unit, ghost i: nat) returns (pc': nat)
      requires Scanning(u, i) && i < u.Count() && pc == u.at[i] && size == |u.code|
      modifies code, data
      ensures Scanning(u, i + 1) && pc' == u.at[i + 1]
    {
      u.PoolKept(i);
      u.ReadsInstruction(i);
      u.LinkInstruction(i);
      var opcode := code[pc];
      assert opcode == code[..size][pc];
      pc' := pc + LengthAt(code[..size], pc);
      if IsCodeRef(opcode) {
        hide Scanning;
        LinkCodeRef(pc, size, u, i);
      } else if IsPoolRef(opcode) {
        hide Scanning;
        LinkPoolRef(pc, size, u, i);
      }
    }

    /** The scan of is_link_code. */
    method Scan(size: nat, ghost u: Unit)
      requires Scanning(u, 0) && size == |u.code|
      modifies code, data
      ensures Scanning(u, u.Count())
    {
      hide *;
      ScanFacts(u, 0);
      u.ScanAt(0);
      var pc := 0;
      ghost var i: nat := 0;
      while pc != size
        invariant i < |u.at| && Scanning(u, i) && pc == u.at[i]
        decreases size - pc
      {
        ScanFacts(u, i);
        u.ScanAt(i);
        pc := LinkOne(pc, size, u, i);
        i := i + 1;
        ScanFacts(u, i);
      }
      ScanFacts(u, i);
      u.ScanAt(i);
    }

    /** is_link_code, including the copy of the pool behind the code. */
    method LinkCode(size: nat, ghost u: Unit) returns (total: nat)
      requires code != data && code.Length == data.Length == BUFFER_SIZE
      requires u.Valid() && size == |u.code| && code[..size] == u.code
      requires cpindex == |Contents(u.pool)| && data[..cpindex] == Contents(u.pool)
      modifies this, code, data
      ensures total == size + old(cpindex) && code[..total] == u.Image()
      ensures cpindex == 0
    {
      hide *;
      u.NothingLinked();
      u.ScanAt(0);
      u.ScanAt(u.Count());
      ScanGoesOn(u, 0);
      Scan(size, u);
      ScanFacts(u, u.Count());
      CopyIn(code, size, data[..cpindex]);
      total := size + cpindex;
      cpindex := 0;
    }
  }
}
