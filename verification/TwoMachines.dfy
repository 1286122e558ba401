/**
  The two models of vm_decode side by side: the machine of `L1Semantics`, which runs bytes and keeps its frames
  apart, and that of `StackMachine`, which runs decoded instructions and keeps return addresses on its base stack.
  */
module TwoMachines {
  import opened Bytes
  import opened Isa
  import opened Wrappers
  import C = L1Semantics
  import V = StackMachine
  import Laws = InstructionLaws
  import Control = ControlLaws

  /** The return addresses on a base stack, oldest first: each lies on top of a saved package. */
  function Returns(base: seq<V.Slot>): seq<nat>
    decreases |base|
  {
    var n := |base|;
    if n >= 2 && base[n - 1].Raw? && base[n - 2].Raw? then Returns(base[..n - 2]) + [base[n - 1].value]
    else if n >= 1 then Returns(base[..n - 1])
    else []
  }

  /** Both are at the same address with the same callers, above the frame that vm_decode itself starts with. */
  ghost predicate Agree<D>(s: C.State<D>, v: V.Machine) {
    && !s.halted && v.pc == s.pc
    && Returns(v.base) == [0xFFFF] + s.frames
    && forall k :: 0 <= k < |s.frames| ==> s.frames[k] < BUFFER_SIZE
  }

  // ---------- what instructions do to return addresses ----------

  lemma SavedAddress(base: seq<V.Slot>, pkg: nat, a: nat)
    ensures Returns(base + [V.Raw(pkg), V.Raw(a)]) == Returns(base) + [a]
  {
    var b := base + [V.Raw(pkg), V.Raw(a)];
    assert b[..|b| - 2] == base;
  }

  lemma {:induction false} VariablesComeIn(base: seq<V.Slot>, more: seq<V.Slot>)
    requires forall k :: 0 <= k < |more| ==> !more[k].Raw?
    ensures Returns(base + more) == Returns(base)
    decreases |more|
  {
    if more == [] {
      assert base + more == base;
    } else {
      var n := |more| - 1;
      assert (base + more)[..|base + more| - 1] == base + more[..n];
      VariablesComeIn(base, more[..n]);
    }
  }

  /** Replacing a variable by another value that is no address. */
  lemma {:induction false} VariableChanges(a: seq<V.Slot>, b: seq<V.Slot>, p: nat)
    requires |a| == |b| && p < |a| && !a[p].Raw? && !b[p].Raw?
    requires forall k :: 0 <= k < |a| && k != p ==> a[k] == b[k]
    ensures Returns(a) == Returns(b)
    decreases |a|
  {
    var n := |a|;
    if n >= 2 && a[n - 1].Raw? && a[n - 2].Raw? {
      VariableChanges(a[..n - 2], b[..n - 2], p);
    } else if p == n - 1 {
      assert a[..n - 1] == b[..n - 1];
    } else {
      VariableChanges(a[..n - 1], b[..n - 1], p);
    }
  }

  // ---------- one instruction ----------

  /** Instruction i is what the bytes at s decode to, with outcomes and resolved targets filled in. */
  ghost predicate Decodes<D>(m: C.Semantics<D>, c: seq<byte>, s: C.State<D>, i: V.Ins) {
    && C.Live(c, s) && |c| < BUFFER_SIZE
    && var op := c[s.pc];
       match i
       case Jmp(rel) => op == INS_JMP && Wrap16(s.pc + rel) == Word(c, s.pc + 1)
       case JFalse(taken, rel) =>
         op == INS_JFALSE && taken == m.taken(op, s.data) && Wrap16(s.pc + rel) == Word(c, s.pc + 1)
       case Call(rel) => op == INS_CALL && Wrap16(s.pc + rel) == Word(c, s.pc + 1)
       case Ret => op == INS_RET
       case ExtCall(_, _) => false
       case _ => OnlyData(m, c, s) && Named(op, i)
  }

  /** The opcodes of the instructions that only work on data. */
  predicate Named(op: byte, i: V.Ins) {
    match i
    case ObjPush(_) => op == INS_OBJPUSH
    case ObjPop(_) => op == 26
    case ObjStore(_) => op == 29
    case ObjConst => op == INS_OBJCONST || op == INS_OBJNEW
    case ObjDup => op == 18
    case ObjDel => op == 19
    case Operation(n) =>                  // OBJSZ NOT; ADD SUB MUL DIV AND OR XOR CREQ .. CRLTEQ; OBJSUB
      || (n == 1 && (op == 22 || op == 43))
      || (n == 2 && (32 <= op <= 35 || 40 <= op <= 42 || 64 <= op <= 69))
      || (n == 3 && op == 23)
    case SCtx(_) => op == INS_SCTX
    case RCtx(_) => op == INS_RCTX
    case _ => false
  }

  /** The linker and the optimizer step over an instruction by as many bytes as vm_decode does. */
  lemma LengthsAgree(c: seq<byte>, p: nat, i: V.Ins)
    requires p < |c| && Named(c[p], i)
    ensures LengthAt(c, p) == Length(i)
  {
  }

  /** Bytes that the byte machine leaves to its data side, and that only go on. */
  ghost predicate OnlyData<D>(m: C.Semantics<D>, c: seq<byte>, s: C.State<D>)
    requires C.Live(c, s)
  {
    var op := c[s.pc];
    && op != INS_LBL && op != INS_RET && !IsJump(op)
    && m.run(c[s.pc..s.pc + LengthAt(c, s.pc)], s.data).Next?
  }

  function Length(i: V.Ins): nat {
    match i
    case ObjPush(_) => 2
    case ObjPop(_) => 2
    case ObjStore(_) => 2
    case SCtx(_) => 2
    case RCtx(_) => 2
    case ObjDup => 1
    case ObjDel => 1
    case Operation(_) => 1
    case _ => 3
  }

  /** An instruction of the data side goes on and leaves the callers alone. */
  lemma DataStep<D>(m: C.Semantics<D>, c: seq<byte>, s: C.State<D>)
    requires C.Live(c, s) && OnlyData(m, c, s)
    ensures var t := C.Step(m, c, s);
      t.pc == s.pc + LengthAt(c, s.pc) <= |c| && t.frames == s.frames && t.functions == s.functions && !t.halted
  {
  }

  lemma JmpAgrees<D>(m: C.Semantics<D>, c: seq<byte>, s: C.State<D>, v: V.Machine, rel: word)
    requires Agree(s, v) && Decodes(m, c, s, V.Jmp(rel)) && V.Ready(v, V.Jmp(rel))
    ensures Agree(C.Step(m, c, s), V.Step(v, V.Jmp(rel)))
  {
    hide C.Step, V.Step, Returns, Word, Wrap16;
    Control.JmpDoes(m, c, s);
    Laws.JmpDoes(v, rel);
  }

  lemma JFalseAgrees<D>(m: C.Semantics<D>, c: seq<byte>, s: C.State<D>, v: V.Machine, taken: bool, rel: word)
    requires Agree(s, v) && Decodes(m, c, s, V.JFalse(taken, rel)) && V.Ready(v, V.JFalse(taken, rel))
    ensures Agree(C.Step(m, c, s), V.Step(v, V.JFalse(taken, rel)))
  {
    hide C.Step, V.Step, Returns, Word;
    Control.BranchDoes(m, c, s);
    Laws.JFalseDoes(v, taken, rel);
  }

  lemma CallAgrees<D>(m: C.Semantics<D>, c: seq<byte>, s: C.State<D>, v: V.Machine, rel: word)
    requires Agree(s, v) && Decodes(m, c, s, V.Call(rel)) && V.Ready(v, V.Call(rel))
    ensures Agree(C.Step(m, c, s), V.Step(v, V.Call(rel)))
  {
    hide C.Step, V.Step, Returns, Word, Wrap16;
    Control.CallDoes(m, c, s);
    Laws.CallDoes(v, rel);
    SavedAddress(v.base, v.pkg, s.pc + 3);
  }

  /** RET of a callee. */
  lemma RetAgrees<D>(m: C.Semantics<D>, c: seq<byte>, s: C.State<D>, v: V.Machine)
    requires Agree(s, v) && Decodes(m, c, s, V.Ret) && V.Ready(v, V.Ret) && s.frames != []
    ensures Agree(C.Step(m, c, s), V.Step(v, V.Ret))
  {
    hide C.Step, V.Step, Word;
    Control.RetDoes(m, c, s);
    Laws.RetDoes(v);
    var n, k := |v.base|, |s.frames|;
    var r := Returns(v.base[..n - 2]);
    assert r + [v.base[n - 1].value] == [0xFFFF] + s.frames;
    assert ([0xFFFF] + s.frames)[k] == s.frames[k - 1];
    assert r == ([0xFFFF] + s.frames)[..k] == [0xFFFF] + s.frames[..k - 1];
    WrapFits(s.frames[k - 1]);
  }

  /** RET of `main`: the byte machine ends, the other one goes to the address that vm_decode pushed for that. */
  lemma MainReturns<D>(m: C.Semantics<D>, c: seq<byte>, s: C.State<D>, v: V.Machine)
    requires Agree(s, v) && Decodes(m, c, s, V.Ret) && V.Ready(v, V.Ret) && s.frames == []
    ensures C.Step(m, c, s).halted && V.Step(v, V.Ret).pc == 0xFFFF
  {
    hide C.Step, V.Step;
    Control.RetDoes(m, c, s);
    Laws.RetDoes(v);
    var n := |v.base|;
    assert Returns(v.base[..n - 2]) + [v.base[n - 1].value] == [0xFFFF];
    assert (Returns(v.base[..n - 2]) + [v.base[n - 1].value])[|Returns(v.base[..n - 2])|] == v.base[n - 1].value;
  }

  /** All other instructions keep the return addresses. */
  lemma ReturnsStay(v: V.Machine, i: V.Ins)
    requires V.Ready(v, i) && !(i.Call? || i.ExtCall? || i.Ret? || i.Jmp? || i.JFalse?)
    ensures var e := V.Step(v, i); Returns(e.base) == Returns(v.base) && e.pc == Wrap16(v.pc + Length(i))
  {
    hide V.Step, Returns;
    match i
    case ObjPush(x) => Laws.ObjPushDoes(v, x);
    case ObjPop(x) => Laws.ObjPopDoes(v, x); VariableChanges(v.base, V.Step(v, i).base, V.VarAt(v, x));
    case ObjStore(x) => Laws.ObjStoreDoes(v, x); VariableChanges(v.base, V.Step(v, i).base, V.VarAt(v, x));
    case ObjConst => Laws.ObjConstDoes(v);
    case ObjDup => Laws.ObjDupDoes(v);
    case ObjDel => Laws.ObjDelDoes(v);
    case Operation(n) => Laws.OperationDoes(v, n);
    case SCtx(n) => Opens(v, n);
    case RCtx(n) => Closes(v, n);
    case _ =>
  }

  lemma Opens(v: V.Machine, n: byte)
    requires V.Ready(v, V.SCtx(n))
    ensures var e := V.Step(v, V.SCtx(n)); Returns(e.base) == Returns(v.base) && e.pc == Wrap16(v.pc + 2)
  {
    hide V.Step, Returns;
    Laws.SCtxDoes(v, n);
    var e := V.Step(v, V.SCtx(n));
    var more := e.base[|v.base|..];
    forall k | 0 <= k < |more|
      ensures !more[k].Raw?
    {
      assert Laws.Opened(v, e, k);
    }
    assert e.base == v.base + more;
    VariablesComeIn(v.base, more);
  }

  lemma Closes(v: V.Machine, n: byte)
    requires V.Ready(v, V.RCtx(n))
    ensures var e := V.Step(v, V.RCtx(n)); Returns(e.base) == Returns(v.base) && e.pc == Wrap16(v.pc + 2)
  {
    hide V.Step, Returns;
    Laws.RCtxDoes(v, n);
    var k := |v.base| - n;
    assert v.base == v.base[..k] + v.base[k..];
    VariablesComeIn(v.base[..k], v.base[k..]);
  }

  lemma OtherAgrees<D>(m: C.Semantics<D>, c: seq<byte>, s: C.State<D>, v: V.Machine, i: V.Ins)
    requires Agree(s, v) && Decodes(m, c, s, i) && V.Ready(v, i)
    requires !(i.Call? || i.Ret? || i.Jmp? || i.JFalse?)
    ensures Agree(C.Step(m, c, s), V.Step(v, i))
  {
    hide C.Step, V.Step, Returns, LengthAt, V.Ready;
    DataStep(m, c, s);
    LengthsAgree(c, s.pc, i);
    ReturnsStay(v, i);
  }

  /** One instruction leads agreeing machines to agreeing machines. */
  lemma StepAgrees<D>(m: C.Semantics<D>, c: seq<byte>, s: C.State<D>, v: V.Machine, i: V.Ins)
    requires Agree(s, v) && Decodes(m, c, s, i) && V.Ready(v, i) && (i.Ret? ==> s.frames != [])
    ensures Agree(C.Step(m, c, s), V.Step(v, i))
  {
    hide C.Step, V.Step, Agree, Decodes, V.Ready;
    match i
    case Jmp(rel) => JmpAgrees(m, c, s, v, rel);
    case JFalse(taken, rel) => JFalseAgrees(m, c, s, v, taken, rel);
    case Call(rel) => CallAgrees(m, c, s, v, rel);
    case Ret => RetAgrees(m, c, s, v);
    case _ => OtherAgrees(m, c, s, v, i);
  }

  // ---------- runs ----------

  /** The instructions are what the byte machine comes to, one after the other, before `main` returns. */
  ghost predicate Follows<D>(m: C.Semantics<D>, c: seq<byte>, s: C.State<D>, instructions: seq<V.Ins>)
    decreases |instructions|
  {
    instructions != [] ==>
      && Decodes(m, c, s, instructions[0]) && (instructions[0].Ret? ==> s.frames != [])
      && Follows(m, c, C.Step(m, c, s), instructions[1..])
  }

  /** As long as the value machine runs, both stay at the same address with the same callers. */
  lemma {:induction false} RunsAgree<D>(m: C.Semantics<D>, c: seq<byte>, s: C.State<D>, v: V.Machine,
      instructions: seq<V.Ins>)
    requires Agree(s, v) && Follows(m, c, s, instructions) && V.Run(Some(v), instructions).Some?
    ensures Agree(C.Run(m, c, s, |instructions|), V.Run(Some(v), instructions).value)
    decreases |instructions|
  {
    hide C.Step, V.Step, Agree, Decodes, V.Ready;
    if instructions != [] {
      var i := instructions[0];
      if V.Ready(v, i) {
        StepAgrees(m, c, s, v, i);
        RunsAgree(m, c, C.Step(m, c, s), V.Step(v, i), instructions[1..]);
      } else {
        V.NothingRuns(instructions[1..]);
      }
    }
  }

  lemma StartsAgree<D>(main: word, pkg: nat, data: D)
    ensures Agree(C.State(main, [], [], data, false), V.Start(pkg, main))
  {
    SavedAddress([], 0, 0xFFFF);
    assert [] + [V.Raw(0), V.Raw(0xFFFF)] == [V.Raw(0), V.Raw(0xFFFF)];
  }
}
