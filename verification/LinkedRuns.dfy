/**
  Runs of linked code: the machine over the image, whose addresses are relative to the instruction
  that names them, and the machine over code and constant pool as they were before linking.
  */
module LinkedRuns {
  import opened Bytes
  import opened Isa
  import opened Layout
  import opened ConstantPool
  import opened JumpTables
  import opened Linker
  import Machine = L1Semantics

  type State<D> = Machine.State<D>

  /** Code and constants in two buffers with absolute operands, or linked into one image. */
  datatype Store = Unlinked(code: seq<byte>, data: seq<byte>) | Image(image: seq<byte>) {

    function Code(): seq<byte> {
      match this
      case Unlinked(code, _) => code
      case Image(image) => image
    }

    /** The code address that operand w of the instruction at pc names. */
    function Target(w: word, pc: nat): nat {
      match this
      case Unlinked(_, _) => w
      case Image(_) => Wrap16(w + pc)
    }

    /** The constant that operand w of the instruction at pc names. */
    function Constant(w: word, pc: nat): Loaded {
      match this
      case Unlinked(_, data) => LoadConstant(data, w)
      case Image(image) => LoadConstant(image, w + pc)
    }

    /** Where SWITCH at pc goes with this table, from byte psw of it on. */
    function Choice(table: seq<byte>, pc: nat, psw: nat, matches: seq<byte> -> bool): nat
      requires |table| >= 2
      decreases |table| - psw
    {
      if psw + 4 > |table| then Target(Word(table, 0), pc)
      else
        var op2 := Constant(Word(table, psw), pc);
        if op2.Loaded? && matches(op2.value) then Target(Word(table, psw + 2), pc)
        else Choice(table, pc, psw + 4, matches)
    }
  }

  /** The data side of the machine, with what SWITCH and F2O ask of it. */
  datatype Host<!D> = Host(
    m: Machine.Semantics<D>,
    equal: (D, seq<byte>) -> bool,
    makeFunction: (nat, nat, D) -> D)

  /** F2O_0 to F2O_15: a function object for so many arguments. */
  predicate IsF2O(op: byte) {
    INS_F2O <= op <= INS_F2O_15
  }

  /** The constants that compare equal to the object on top. */
  function Matches<D>(equal: (D, seq<byte>) -> bool, d: D): seq<byte> -> bool {
    v => equal(d, v)
  }

  /** SWITCH with its table loaded. */
  function Choose<D>(h: Host<D>, st: Store, table: seq<byte>, s: State<D>): State<D> {
    if |table| < 2 then s.(halted := true)
    else s.(pc := st.Choice(table, s.pc, 2, Matches(h.equal, s.data)), data := h.m.pop(INS_SWITCH, s.data))
  }

  /** An instruction with a constant; a call into another package is a step of the data side. */
  function WithConstant<D>(h: Host<D>, st: Store, op: byte, l: Loaded, next: nat, s: State<D>): State<D> {
    match l
    case OutOfBounds => s.(halted := true)
    case Loaded(v) =>
      if op == INS_SWITCH then Choose(h, st, v, s) else Machine.Exec(h.m, Machine.Decoded(op, [op] + v, 0, next), s)
  }

  function MakeFunction<D>(h: Host<D>, op: byte, w: word, next: nat, s: State<D>): State<D>
    requires IsF2O(op)
  {
    s.(pc := next, functions := s.functions + [w], data := h.makeFunction(op - INS_F2O, |s.functions|, s.data))
  }

  function Step<D>(h: Host<D>, st: Store, s: State<D>): State<D> {
    var c := st.Code();
    if !Machine.Live(c, s) then s.(halted := true)
    else
      var op, next := c[s.pc], s.pc + LengthAt(c, s.pc);
      if IsCodeRef(op) then Machine.Exec(h.m, Machine.Decoded(op, [op], st.Target(Word(c, s.pc + 1), s.pc), next), s)
      else if IsF2O(op) then MakeFunction(h, op, Word(c, s.pc + 1), next, s)
      else if IsPoolRef(op) then WithConstant(h, st, op, st.Constant(Word(c, s.pc + 1), s.pc), next, s)
      else Machine.Exec(h.m, Machine.Decoded(op, c[s.pc..next], 0, next), s)
  }

  function Run<D>(h: Host<D>, st: Store, s: State<D>, n: nat): State<D>
    decreases n
  {
    if n == 0 then s else Run(h, st, Step(h, st, s), n - 1)
  }

  // ---------- what is asked of a unit ----------

  ghost predicate Starts(u: Unit, a: nat) {
    exists j: nat :: j < u.Count() && j < |u.at| && u.at[j] == a
  }

  /** The operand of instruction i names an instruction, or a constant that is no jump table. */
  ghost predicate Refers(u: Unit, i: nat)
    requires u.Valid() && i < u.Count()
  {
    var op := u.Op(i);
    && (IsCodeRef(op) || IsF2O(op) ==> u.at[i] + 2 < |u.code| && Starts(u, u.Operand(i)))
    && (IsPoolRef(op) && op != INS_SWITCH ==>
          u.at[i] + 2 < |u.code| && exists k: nat :: Names(u, i, k))
    && (op == INS_SWITCH ==>
          && (exists pick: seq<nat> :: u.Picks(i, pick))
          && Starts(u, u.table[i].fallback)
          && forall k :: 0 <= k < |u.table[i].cases| ==> Starts(u, u.table[i].cases[k].label_))
  }

  ghost predicate Names(u: Unit, i: nat, k: nat)
    requires i < |u.at| && u.at[i] + 2 < |u.code|
  {
    k < |u.pool| && u.Operand(i) == Offset(u.pool, k) && !u.IsTable(k)
  }

  /** All operands name something, and the last instruction does not go on behind the code. */
  ghost predicate Closed(u: Unit) {
    && u.Valid() && u.Count() > 0
    && (forall i {:trigger u.Op(i)} :: 0 <= i < u.Count() ==> Refers(u, i))
    && u.Op(u.Count() - 1) in [INS_RET, INS_JMP, INS_SWITCH]
  }

  /** Every code address of a state is the start of an instruction. */
  ghost predicate Inside<D>(u: Unit, s: State<D>) {
    && Starts(u, s.pc) && (forall k :: 0 <= k < |s.frames| ==> Starts(u, s.frames[k]))
    && (forall k :: 0 <= k < |s.functions| ==> Starts(u, s.functions[k]))
  }

  // ---------- one instruction ----------

  /** The bytes of every instruction in the image. */
  lemma BytesInImage(u: Unit, i: nat)
    requires u.Valid() && i < u.Count()
    ensures u.at[i] < u.at[i + 1] <= |u.code| <= |u.Image()| && u.at[i + 1] == u.at[i] + LengthAt(u.code, u.at[i])
    ensures u.code[u.at[i]] == u.Op(i)
    ensures u.Image()[u.at[i]..u.at[i + 1]] == u.LinkedInstruction(i)
  {
    hide u.Valid, u.LinkedInstruction, LengthAt, Contents;
    u.StartsAt(i);
    u.LinkedAll();
    u.LinkedPrefix(i + 1, u.Count());
    u.LinkedAppends(i);
    var b := u.Image();
    assert b[..u.at[i + 1]] == u.Linked(i) + u.LinkedInstruction(i);
    assert b[u.at[i]..u.at[i + 1]] == b[..u.at[i + 1]][u.at[i]..];
  }

  lemma SameLength(c: seq<byte>, p: nat, d: seq<byte>, q: nat, n: nat)
    requires p + n <= |c| && q + n <= |d| && c[p..p + n] == d[q..q + n] && 1 <= n == LengthAt(c, p)
    ensures c[p] == d[q] && LengthAt(d, q) == n && (n == 3 ==> Word(c, p + 1) == Word(d, q + 1))
  {
    var e, f := c[p..p + n], d[q..q + n];
    assert c[p] == e[0] && d[q] == f[0];
    assert n >= 2 ==> c[p + 1] == e[1] && d[q + 1] == f[1];
    assert n >= 3 ==> c[p + 2] == e[2] && d[q + 2] == f[2];
  }

  /** The scan of instructions is the same in the image; only operands that are references differ. */
  lemma SameInstruction(u: Unit, i: nat)
    requires u.Valid() && i < u.Count()
    ensures u.at[i] < u.at[i + 1] <= |u.code| <= |u.Image()| && u.at[i + 1] == u.at[i] + LengthAt(u.code, u.at[i])
    ensures u.Image()[u.at[i]] == u.Op(i) == u.code[u.at[i]]
    ensures LengthAt(u.Image(), u.at[i]) == LengthAt(u.code, u.at[i])
    ensures !IsCodeRef(u.Op(i)) && !IsPoolRef(u.Op(i)) ==>
              && u.Image()[u.at[i]..u.at[i + 1]] == u.code[u.at[i]..u.at[i + 1]]
              && (ThreeByte(u.Op(i)) ==> Word(u.Image(), u.at[i] + 1) == u.Operand(i))
    ensures ThreeByte(u.Op(i)) ==> u.at[i + 1] == u.at[i] + 3
    ensures IsCodeRef(u.Op(i)) || IsPoolRef(u.Op(i)) || IsF2O(u.Op(i)) ==> ThreeByte(u.Op(i))
  {
    hide u.Valid, u.LinkedInstruction, u.Image, LengthAt;
    BytesInImage(u, i);
    u.InstructionLinked(i);
    LengthIsThree(u.code, u.at[i]);
    if IsCodeRef(u.Op(i)) || IsPoolRef(u.Op(i)) {
      u.OperandInImage(i);
      LengthIsThree(u.Image(), u.at[i]);
    } else {
      SameLength(u.code, u.at[i], u.Image(), u.at[i], LengthAt(u.code, u.at[i]));
    }
  }

  lemma LengthIsThree(c: seq<byte>, p: nat)
    requires p < |c|
    ensures ThreeByte(c[p]) ==> LengthAt(c, p) == 3
  {
  }

  lemma CodeRefAgrees(u: Unit, i: nat)
    requires u.Valid() && i < u.Count() && IsCodeRef(u.Op(i))
    ensures u.at[i] + 2 < |u.code| <= |u.Image()|
    ensures Image(u.Image()).Target(Word(u.Image(), u.at[i] + 1), u.at[i]) == u.Operand(i)
  {
    hide u.Valid, u.Image, LengthAt, Word;
    SameInstruction(u, i);
    u.JumpsResolve(i);
  }

  /** The constant of an entry, in the pool as it was before linking. */
  lemma PoolLoads(u: Unit, k: nat)
    requires u.Valid() && k < |u.pool|
    ensures LoadConstant(Contents(u.pool), Offset(u.pool, k))
         == if |u.pool[k]| <= VA_OBJECT_MAX_SIZE then Loaded(u.pool[k]) else OutOfBounds
  {
    hide u.Valid, Contents, Entry, LoadConstant;
    u.ConstantFits(k);
    EntryAt(u.pool, k);
    LoadsWhatWasPushed(Contents(u.pool), Offset(u.pool, k), u.pool[k]);
  }

  lemma ConstantAgrees(u: Unit, i: nat, k: nat)
    requires u.Valid() && i < u.Count() && IsPoolRef(u.Op(i)) && u.at[i] + 2 < |u.code| && Names(u, i, k)
    ensures u.at[i] + 2 < |u.Image()|
    ensures Image(u.Image()).Constant(Word(u.Image(), u.at[i] + 1), u.at[i])
         == Unlinked(u.code, Contents(u.pool)).Constant(u.Operand(i), u.at[i])
  {
    hide u.Valid, u.Image, Contents, LoadConstant, Word;
    u.ConstantsResolve(i, k);
    PoolLoads(u, k);
  }

  // ---------- SWITCH ----------

  lemma {:induction false} ImageChoice(image: seq<byte>, table: seq<byte>, pc: nat, psw: nat,
      matches: seq<byte> -> bool)
    requires |table| >= 2
    ensures Image(image).Choice(table, pc, psw, matches) == SwitchTarget(image, table, pc, psw, matches)
    decreases |table| - psw
  {
    hide LoadConstant, Word, Wrap16;
    if psw + 4 <= |table| {
      ImageChoice(image, table, pc, psw + 4, matches);
    }
  }

  /** The words of case k in the table before linking. */
  lemma UnlinkedCase(u: Unit, i: nat, k: nat, pick: seq<nat>, pc: nat)
    requires u.Valid() && i < |u.table| && u.Picks(i, pick) && k < |pick|
    ensures var t, st := u.table[i], Unlinked(u.code, Contents(u.pool));
      && k < |t.cases| && pick[k] < |u.pool| && |TableBytes(t)| >= 6 + 4 * k
      && Word(TableBytes(t), 4 + 4 * k) == t.cases[k].label_
      && st.Constant(Word(TableBytes(t), 2 + 4 * k), pc) == Loaded(u.pool[pick[k]])
  {
    hide u.Valid, TableBytes, Word, LoadConstant, Contents;
    var t := u.table[i];
    assert u.PicksOne(t.cases[k], pick[k]);
    TableWords(t, k);
    PoolLoads(u, pick[k]);
  }

  lemma {:induction false} UnlinkedChoice(u: Unit, i: nat, pick: seq<nat>, pc: nat, matches: seq<byte> -> bool, k: nat)
    requires u.Valid() && i < |u.table| && u.Picks(i, pick) && k <= |pick|
    ensures |TableBytes(u.table[i])| >= 2
    ensures Unlinked(u.code, Contents(u.pool)).Choice(TableBytes(u.table[i]), pc, 2 + 4 * k, matches)
         == u.Chosen(i, pick, matches, k)
    decreases |pick| - k
  {
    hide u.Valid, u.Picks, u.Chosen, TableBytes, Word, Contents, Store.Constant;
    u.ChosenUnfolds(i, pick, matches, k);
    TableWords(u.table[i], 0);
    if k < |pick| {
      UnlinkedCase(u, i, k, pick, pc);
      UnlinkedChoice(u, i, pick, pc, matches, k + 1);
      assert 2 + 4 * k + 4 == 2 + 4 * (k + 1);
    }
  }

  /** SWITCH loads different tables in the two stores and goes to the same instruction. */
  lemma SwitchAgrees(u: Unit, i: nat, pick: seq<nat>, matches: seq<byte> -> bool)
    requires u.Valid() && i < u.Count() && u.Op(i) == INS_SWITCH && u.Picks(i, pick)
    ensures u.at[i] + 2 < |u.code| <= |u.Image()|
    ensures var l, r := Unlinked(u.code, Contents(u.pool)), Image(u.Image());
      && l.Constant(u.Operand(i), u.at[i]) == Loaded(TableBytes(u.table[i]))
      && r.Constant(Word(u.Image(), u.at[i] + 1), u.at[i]) == Loaded(u.RelocatedTable(i))
      && |TableBytes(u.table[i])| >= 2 && |u.RelocatedTable(i)| >= 2
      && l.Choice(TableBytes(u.table[i]), u.at[i], 2, matches) == u.Chosen(i, pick, matches, 0)
      && r.Choice(u.RelocatedTable(i), u.at[i], 2, matches) == u.Chosen(i, pick, matches, 0)
  {
    hide u.Valid, u.Picks, u.Chosen, u.Image, TableBytes, Word, Contents, u.RelocatedTable, LoadConstant, Store.Choice;
    u.LinkedAll();
    SameInstruction(u, i);
    u.TableInPool(i);
    u.UnlinkedTable(i);
    PoolLoads(u, u.tab[i]);
    u.SwitchesResolve(i, pick, matches);
    u.FallbackResolves(i);
    ImageChoice(u.Image(), u.RelocatedTable(i), u.at[i], 2, matches);
    UnlinkedChoice(u, i, pick, u.at[i], matches, 0);
  }

  lemma {:induction false} ChosenStarts(u: Unit, i: nat, pick: seq<nat>, matches: seq<byte> -> bool, k: nat)
    requires i < |u.table| && u.Picks(i, pick) && k <= |pick|
    requires Starts(u, u.table[i].fallback)
    requires forall k :: 0 <= k < |u.table[i].cases| ==> Starts(u, u.table[i].cases[k].label_)
    ensures Starts(u, u.Chosen(i, pick, matches, k))
    decreases |pick| - k
  {
    hide u.Picks, u.Chosen, Starts;
    u.ChosenUnfolds(i, pick, matches, k);
    if k < |pick| {
      ChosenStarts(u, i, pick, matches, k + 1);
    }
  }

  // ---------- one step ----------

  ghost function Before(u: Unit): Store {
    Unlinked(u.code, Contents(u.pool))
  }

  ghost function After(u: Unit): Store
    requires u.Valid()
  {
    Image(u.Image())
  }

  lemma RefersAt(u: Unit, i: nat)
    requires Closed(u) && i < u.Count()
    ensures u.Valid() && Refers(u, i) && i + 1 < |u.at|
    ensures u.Op(i) !in [INS_RET, INS_JMP, INS_SWITCH] ==> Starts(u, u.at[i + 1])
  {
    hide u.Valid, Names, u.Picks;
    if i + 1 < u.Count() {
      assert u.at[i + 1] == u.at[i + 1];
    }
  }

  /** What an instruction does to code addresses. */
  lemma ExecStaysInside<D>(u: Unit, m: Machine.Semantics<D>, i: Machine.Decoded, s: State<D>)
    requires Inside(u, s)
    requires i.op !in [INS_RET, INS_JMP] ==> Starts(u, i.next)
    requires IsJump(i.op) ==> Starts(u, i.target)
    ensures Inside(u, Machine.Exec(m, i, s))
  {
    hide Starts;
  }

  /** CALL, JMP, JFALSE and JTRUE. */
  lemma CodeRefStep<D>(u: Unit, i: nat, h: Host<D>, s: State<D>)
    requires Closed(u) && i < u.Count() && IsCodeRef(u.Op(i)) && Inside(u, s) && !s.halted && s.pc == u.at[i]
    ensures Step(h, After(u), s) == Step(h, Before(u), s) && Inside(u, Step(h, Before(u), s))
  {
    hide Closed, Inside, u.Valid, u.Image, LengthAt, Contents, Starts, Machine.Exec, Wrap16;
    RefersAt(u, i);
    SameInstruction(u, i);
    CodeRefAgrees(u, i);
    ExecStaysInside(u, h.m, Machine.Decoded(u.Op(i), [u.Op(i)], u.Operand(i), u.at[i + 1]), s);
  }

  lemma FunctionStep<D>(u: Unit, i: nat, h: Host<D>, s: State<D>)
    requires Closed(u) && i < u.Count() && IsF2O(u.Op(i)) && Inside(u, s) && !s.halted && s.pc == u.at[i]
    ensures Step(h, After(u), s) == Step(h, Before(u), s) && Inside(u, Step(h, Before(u), s))
  {
    hide Closed, u.Valid, u.Image, LengthAt, Contents, Starts;
    RefersAt(u, i);
    SameInstruction(u, i);
  }

  lemma ConstantStep<D>(u: Unit, i: nat, h: Host<D>, s: State<D>)
    requires Closed(u) && i < u.Count() && IsPoolRef(u.Op(i)) && u.Op(i) != INS_SWITCH
    requires Inside(u, s) && !s.halted && s.pc == u.at[i]
    ensures Step(h, After(u), s) == Step(h, Before(u), s) && Inside(u, Step(h, Before(u), s))
  {
    hide Closed, u.Valid, u.Image, LengthAt, Contents, Starts, Machine.Exec, Names, Store.Constant;
    RefersAt(u, i);
    SameInstruction(u, i);
    var k: nat :| Names(u, i, k);
    ConstantAgrees(u, i, k);
    var l := Before(u).Constant(u.Operand(i), u.at[i]);
    if l.Loaded? {
      ExecStaysInside(u, h.m, Machine.Decoded(u.Op(i), [u.Op(i)] + l.value, 0, u.at[i + 1]), s);
    }
  }

  lemma SwitchStep<D>(u: Unit, i: nat, h: Host<D>, s: State<D>)
    requires Closed(u) && i < u.Count() && u.Op(i) == INS_SWITCH
    requires Inside(u, s) && !s.halted && s.pc == u.at[i]
    ensures Step(h, After(u), s) == Step(h, Before(u), s) && Inside(u, Step(h, Before(u), s))
  {
    hide Closed, u.Valid, u.Image, LengthAt, Contents, Starts, Machine.Exec, u.Picks, u.Chosen, TableBytes,
      u.RelocatedTable, Store.Constant, Store.Choice, Matches;
    RefersAt(u, i);
    SameInstruction(u, i);
    u.UnlinkedTable(i);
    var pick: seq<nat> :| u.Picks(i, pick);
    var matches := Matches(h.equal, s.data);
    SwitchAgrees(u, i, pick, matches);
    ChosenStarts(u, i, pick, matches, 0);
  }

  lemma OtherStep<D>(u: Unit, i: nat, h: Host<D>, s: State<D>)
    requires Closed(u) && i < u.Count() && !IsCodeRef(u.Op(i)) && !IsF2O(u.Op(i)) && !IsPoolRef(u.Op(i))
    requires Inside(u, s) && !s.halted && s.pc == u.at[i]
    ensures Step(h, After(u), s) == Step(h, Before(u), s) && Inside(u, Step(h, Before(u), s))
  {
    hide Closed, u.Valid, u.Image, LengthAt, Contents, Starts, Machine.Exec, Inside;
    RefersAt(u, i);
    SameInstruction(u, i);
    ExecStaysInside(u, h.m, Machine.Decoded(u.Op(i), u.code[u.at[i]..u.at[i + 1]], 0, u.at[i + 1]), s);
  }

  /** One step of the image is one step of what was linked. */
  lemma StepAgrees<D>(u: Unit, h: Host<D>, s: State<D>)
    requires Closed(u) && Inside(u, s)
    ensures Step(h, After(u), s) == Step(h, Before(u), s) && Inside(u, Step(h, Before(u), s))
  {
    hide After, Before, u.Valid, Machine.Exec, MakeFunction, WithConstant, LengthAt, Word;
    if !s.halted {
      var i: nat :| i < u.Count() && i < |u.at| && u.at[i] == s.pc;
      hide *;
      if IsCodeRef(u.Op(i)) {
        CodeRefStep(u, i, h, s);
      } else if IsF2O(u.Op(i)) {
        FunctionStep(u, i, h, s);
      } else if u.Op(i) == INS_SWITCH {
        SwitchStep(u, i, h, s);
      } else if IsPoolRef(u.Op(i)) {
        ConstantStep(u, i, h, s);
      } else {
        OtherStep(u, i, h, s);
      }
    }
  }

  /** Whatever the data side does, the image runs as the code and the pool before linking. */
  lemma {:induction false} ImageRuns<D>(u: Unit, h: Host<D>, s: State<D>, n: nat)
    requires Closed(u) && Inside(u, s)
    ensures Run(h, After(u), s, n) == Run(h, Before(u), s, n) && Inside(u, Run(h, Before(u), s, n))
    decreases n
  {
    hide Closed, Inside, Step, After, Before;
    if n > 0 {
      StepAgrees(u, h, s);
      ImageRuns(u, h, Step(h, Before(u), s), n - 1);
    }
  }

  /** From the start of `main` on, with no frames and no function objects, as the machine starts. */
  lemma LinkedCodeRuns<D>(u: Unit, h: Host<D>, main: nat, data: D, n: nat)
    requires Closed(u) && Starts(u, main)
    ensures var start := Machine.State(main, [], [], data, false);
            Run(h, After(u), start, n) == Run(h, Before(u), start, n)
  {
    hide After, Before, Step, Refers, Run, Starts;
    ImageRuns(u, h, Machine.State(main, [], [], data, false), n);
  }
}
