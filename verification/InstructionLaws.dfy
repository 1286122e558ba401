/** What every instruction of the value machine does to the stacks, the address and the package, field by field. */
module InstructionLaws {
  import opened Bytes
  import opened Wrappers
  import opened StackMachine

  /** The next instruction is n bytes on, in the same package. */
  predicate GoesOn(m: Machine, e: Machine, n: int) {
    e.pc == Wrap16(m.pc + n) && e.pkg == m.pkg
  }

  /** Variable x, counted from the top of the base stack, is s, and no other slot of the stack has changed. */
  ghost predicate Assigned(m: Machine, e: Machine, x: byte, s: Slot) {
    && |e.base| == |m.base| && VarAt(m, x) >= 0
    && e.base[VarAt(m, x)] == s
    && forall k :: 0 <= k < |m.base| && k != VarAt(m, x) ==> e.base[k] == m.base[k]
  }

  /** The count of object s changes, and no other byte. */
  predicate Counts(m: Machine, e: Machine, s: Slot, delta: int) {
    e.mgc == if s.Ref? && s.id < |m.mgc| then m.mgc[s.id := (m.mgc[s.id] as int + delta) % 0x100] else m.mgc
  }

  lemma ObjPushDoes(m: Machine, x: byte)
    requires Ready(m, ObjPush(x))
    ensures var e := Step(m, ObjPush(x));
      && e.stack == [m.base[VarAt(m, x)]] + m.stack && e.base == m.base && GoesOn(m, e, 2)
      && Counts(m, e, m.base[VarAt(m, x)], 1)
  {
  }

  lemma ObjPopDoes(m: Machine, x: byte)
    requires Ready(m, ObjPop(x))
    ensures var e := Step(m, ObjPop(x));
      && e.stack == m.stack[1..] && Assigned(m, e, x, m.stack[0]) && GoesOn(m, e, 2)
      && Counts(m, e, m.base[VarAt(m, x)], -1)
  {
    var t, d := m.stack[0], PopArc(m);
    if t.Ref? && t != m.base[VarAt(m, x)] {
      assert (d.mgc[t.id] as int + 1) % 0x100 == m.mgc[t.id];
    }
  }

  lemma ObjStoreDoes(m: Machine, x: byte)
    requires Ready(m, ObjStore(x))
    ensures var e := Step(m, ObjStore(x));
      e.stack == m.stack && Assigned(m, e, x, m.stack[0]) && GoesOn(m, e, 2)
  {
  }

  /** A new object: none that was there before. */
  predicate Created(m: Machine, e: Machine, s: Slot) {
    s == Ref(|m.mgc|) && |e.mgc| == |m.mgc| + 1
  }

  lemma ObjConstDoes(m: Machine)
    requires Ready(m, ObjConst)
    ensures var e := Step(m, ObjConst);
      && e.stack == [Ref(|m.mgc|)] + m.stack && e.base == m.base && GoesOn(m, e, 3)
      && Created(m, e, e.stack[0]) && e.mgc[|m.mgc|] == VM_MAGIC + 1
  {
  }

  lemma ObjDupDoes(m: Machine)
    requires Ready(m, ObjDup)
    ensures var e := Step(m, ObjDup);
      && e.stack == [Ref(|m.mgc|)] + m.stack && e.base == m.base && GoesOn(m, e, 1)
      && Created(m, e, e.stack[0]) && e.mgc[|m.mgc|] == VM_MAGIC + 1
  {
  }

  lemma ObjDelDoes(m: Machine)
    requires Ready(m, ObjDel)
    ensures var e := Step(m, ObjDel);
      e.stack == m.stack[1..] && e.base == m.base && GoesOn(m, e, 1) && Counts(m, e, m.stack[0], -1)
  {
  }

  lemma OperationDoes(m: Machine, n: nat)
    requires Ready(m, Operation(n))
    ensures var e := Step(m, Operation(n));
      && e.stack == [Ref(|m.mgc|)] + m.stack[n..] && e.base == m.base && GoesOn(m, e, 1)
      && Created(m, e, e.stack[0]) && e.mgc[|m.mgc|] == VM_MAGIC + 1
  {
  }

  /** The condition goes; the address is the target or that of the next instruction. */
  lemma JFalseDoes(m: Machine, taken: bool, rel: word)
    requires Ready(m, JFalse(taken, rel))
    ensures var e := Step(m, JFalse(taken, rel));
      && e.stack == m.stack[1..] && e.base == m.base && GoesOn(m, e, if taken then rel as int else 3)
      && Counts(m, e, m.stack[0], -1)
  {
  }

  lemma JmpDoes(m: Machine, rel: word)
    requires Ready(m, Jmp(rel))
    ensures var e := Step(m, Jmp(rel)); e.stack == m.stack && e.base == m.base && e.mgc == m.mgc && GoesOn(m, e, rel)
  {
  }

  /** The k-th slot that comes in holds the k-th object that comes in, with one holder. */
  predicate Opened(m: Machine, e: Machine, k: nat) {
    && |m.base| + k < |e.base| && |m.mgc| + k < |e.mgc|
    && e.base[|m.base| + k] == Ref(|m.mgc| + k) && e.mgc[|m.mgc| + k] == VM_MAGIC + 1
  }

  lemma {:induction false} EnterDoes(m: Machine, n: nat)
    ensures var e := Enter(m, n);
      && |e.base| == |m.base| + n && e.base[..|m.base|] == m.base && e.stack == m.stack && e.running == m.running
      && |e.mgc| == |m.mgc| + n && e.mgc[..|m.mgc|] == m.mgc && e.pc == m.pc && e.pkg == m.pkg
      && forall k :: 0 <= k < n ==> Opened(m, e, k)
    decreases n
  {
    if n > 0 {
      var d := PushBase(Create(m), Ref(|m.mgc|));
      EnterDoes(d, n - 1);
      var e := Enter(m, n);
      assert e == Enter(d, n - 1) && d.base == m.base + [Ref(|m.mgc|)] && d.mgc == m.mgc + [VM_MAGIC + 1];
      assert e.base[|m.base|] == e.base[..|d.base|][|m.base|] && e.mgc[|m.mgc|] == e.mgc[..|d.mgc|][|m.mgc|];
      assert e.base[..|m.base|] == e.base[..|d.base|][..|m.base|] && e.mgc[..|m.mgc|] == e.mgc[..|d.mgc|][..|m.mgc|];
      forall k | 0 <= k < n
        ensures Opened(m, e, k)
      {
        if k > 0 { assert Opened(d, e, k - 1); }
      }
    }
  }

  /** n variables come in, each with a new object of its own. */
  lemma SCtxDoes(m: Machine, n: byte)
    requires Ready(m, SCtx(n))
    ensures var e := Step(m, SCtx(n));
      && |e.base| == |m.base| + n && e.base[..|m.base|] == m.base && e.stack == m.stack && GoesOn(m, e, 2)
      && |e.mgc| == |m.mgc| + n && e.mgc[..|m.mgc|] == m.mgc
      && forall k :: 0 <= k < n ==> Opened(m, e, k)
  {
    hide Enter;
    EnterDoes(m, n);
    var d, e := Enter(m, n), Step(m, SCtx(n));
    forall k | 0 <= k < n
      ensures Opened(m, e, k)
    {
      assert Opened(m, d, k);
    }
  }

  lemma {:induction false} LeaveDoes(m: Machine, n: nat)
    requires Locals(m, n)
    ensures var e := Leave(m, n);
      e.base == m.base[..|m.base| - n] && e.stack == m.stack && e.pc == m.pc && e.pkg == m.pkg
    ensures Leave(m, n).running == m.running
    decreases n
  {
    if n > 0 {
      var d := LeaveOne(m);
      assert Locals(d, n - 1);
      LeaveDoes(d, n - 1);
    }
  }

  /** n variables go. */
  lemma RCtxDoes(m: Machine, n: byte)
    requires Ready(m, RCtx(n))
    ensures var e := Step(m, RCtx(n)); e.base == m.base[..|m.base| - n] && e.stack == m.stack && GoesOn(m, e, 2)
  {
    hide Leave;
    LeaveDoes(m, n);
  }

  /** The package and the address behind the call are saved, in this order. */
  lemma CallDoes(m: Machine, rel: word)
    requires Ready(m, Call(rel))
    ensures var e := Step(m, Call(rel));
      && e.base == m.base + [Raw(m.pkg), Raw(m.pc + 3)] && e.stack == m.stack && e.mgc == m.mgc
      && GoesOn(m, e, rel)
  {
  }

  /** The class goes, and execution goes on in its package. */
  lemma ExtCallDoes(m: Machine, pkg: nat, rel: word)
    requires Ready(m, ExtCall(pkg, rel))
    ensures var e := Step(m, ExtCall(pkg, rel));
      && e.base == m.base + [Raw(m.pkg), Raw(m.pc + 3)] && e.stack == m.stack[1..]
      && e.pc == Wrap16(m.pc + rel) && e.pkg == pkg
  {
  }

  lemma RetDoes(m: Machine)
    requires Ready(m, Ret)
    ensures var e, n := Step(m, Ret), |m.base|;
      && e.base == m.base[..n - 2] && e.stack == m.stack && e.mgc == m.mgc
      && Raw(e.pkg) == m.base[n - 2] && m.base[n - 1].Raw? && e.pc == Wrap16(m.base[n - 1].value)
  {
  }

  /** The machine runs on unless the two stacks have come within one slot of each other. */
  lemma StopsWhenFull(m: Machine, i: Ins)
    requires Ready(m, i)
    ensures var e := Step(m, i); e.running <==> |e.base| + |e.stack| + 1 < VM_MAX_STACK_SIZE
  {
    hide Enter, Leave;
    if i.SCtx? { EnterDoes(m, i.n); }
    if i.RCtx? { LeaveDoes(m, i.n); }
  }

  // ---------- runs ----------

  /** Instructions that neither open nor close a context nor call nor return. */
  predicate Plain(i: Ins) {
    !(i.SCtx? || i.RCtx? || i.Call? || i.ExtCall? || i.Ret?)
  }

  /** i stores into variable x. */
  predicate Writes(i: Ins, x: byte) {
    (i.ObjPop? || i.ObjStore?) && i.index == x
  }

  predicate LeavesAlone(instructions: seq<Ins>, x: byte) {
    forall k :: 0 <= k < |instructions| ==> Plain(instructions[k]) && !Writes(instructions[k], x)
  }

  lemma PlainKeeps(m: Machine, i: Ins, x: byte)
    requires Ready(m, i) && Plain(i) && !Writes(i, x) && VarAt(m, x) >= 0
    ensures var e := Step(m, i); |e.base| == |m.base| && e.base[VarAt(m, x)] == m.base[VarAt(m, x)]
  {
    hide Step;
    match i
    case ObjPush(y) => ObjPushDoes(m, y);
    case ObjPop(y) => ObjPopDoes(m, y);
    case ObjStore(y) => ObjStoreDoes(m, y);
    case ObjConst => ObjConstDoes(m);
    case ObjDup => ObjDupDoes(m);
    case ObjDel => ObjDelDoes(m);
    case Operation(n) => OperationDoes(m, n);
    case JFalse(taken, rel) => JFalseDoes(m, taken, rel);
    case Jmp(rel) => JmpDoes(m, rel);
    case _ =>
  }

  /** A variable keeps its object through any run that does not store into it. */
  lemma {:induction false} VariableSurvives(m: Machine, instructions: seq<Ins>, x: byte)
    requires LeavesAlone(instructions, x) && VarAt(m, x) >= 0 && Run(Some(m), instructions).Some?
    ensures var e := Run(Some(m), instructions).value;
      |e.base| == |m.base| && e.base[VarAt(m, x)] == m.base[VarAt(m, x)]
    decreases |instructions|
  {
    hide Step, Ready;
    if instructions != [] {
      var i := instructions[0];
      if Ready(m, i) {
        PlainKeeps(m, i, x);
        VariableSurvives(Step(m, i), instructions[1..], x);
      } else {
        NothingRuns(instructions[1..]);
      }
    }
  }

  lemma {:induction false} RunsJoin(o: Option<Machine>, first: seq<Ins>, second: seq<Ins>)
    ensures Run(o, first + second) == Run(Run(o, first), second)
    decreases |first|
  {
    hide Try;
    if first == [] {
      assert first + second == second;
    } else {
      assert (first + second)[1..] == first[1..] + second;
      RunsJoin(Try(o, first[0]), first[1..], second);
    }
  }

  lemma RunOne(o: Option<Machine>, i: Ins)
    ensures Run(o, [i]) == Try(o, i)
  {
    assert Run(o, [i]) == Run(Try(o, i), []);
  }

  /** What is popped into a variable is what a later push of it yields, unless something else was stored there. */
  lemma LastStoreIsRead(m: Machine, x: byte, between: seq<Ins>)
    requires LeavesAlone(between, x) && m.stack != []
    requires Run(Some(m), [ObjPop(x)] + between + [ObjPush(x)]).Some?
    ensures Run(Some(m), [ObjPop(x)] + between + [ObjPush(x)]).value.stack != []
    ensures Run(Some(m), [ObjPop(x)] + between + [ObjPush(x)]).value.stack[0] == m.stack[0]
  {
    hide Step, Ready, Run, VarAt;
    RunsJoin(Some(m), [ObjPop(x)] + between, [ObjPush(x)]);
    RunsJoin(Some(m), [ObjPop(x)], between);
    RunOne(Some(m), ObjPop(x));
    var d := Run(Run(Some(m), [ObjPop(x)]), between);
    RunOne(d, ObjPush(x));
    if !Ready(m, ObjPop(x)) {
      NothingRuns(between);
    } else {
      ObjPopDoes(m, x);
      var e := Step(m, ObjPop(x));
      SameVariable(m, e, x);
      VariableSurvives(e, between, x);
      SameVariable(e, d.value, x);
      ObjPushDoes(d.value, x);
    }
  }

  lemma SameVariable(m: Machine, e: Machine, x: byte)
    requires |e.base| == |m.base|
    ensures VarAt(e, x) == VarAt(m, x)
  {
  }

  /** Without anything in between the stack is as before. */
  lemma PopThenPush(m: Machine, x: byte)
    requires Run(Some(m), [ObjPop(x), ObjPush(x)]).Some?
    ensures Run(Some(m), [ObjPop(x), ObjPush(x)]).value.stack == m.stack
  {
    hide Step, Ready, Run, VarAt;
    assert [ObjPop(x)] + [ObjPush(x)] == [ObjPop(x), ObjPush(x)];
    RunsJoin(Some(m), [ObjPop(x)], [ObjPush(x)]);
    RunOne(Some(m), ObjPop(x));
    RunOne(Try(Some(m), ObjPop(x)), ObjPush(x));
    ObjPopDoes(m, x);
    var e := Step(m, ObjPop(x));
    SameVariable(m, e, x);
    ObjPushDoes(e, x);
    PopTakesOne(m, x);
  }

  lemma PopTakesOne(m: Machine, x: byte)
    requires Ready(m, ObjPop(x))
    ensures m.stack == [m.stack[0]] + m.stack[1..]
  {
  }
}
