/** Where runs of the machine of `L1Semantics` and `LinkedRuns` go: calls come back behind themselves. */
module ControlLaws {
  import opened Bytes
  import opened Isa
  import opened L1Semantics
  import opened Linker
  import Linked = LinkedRuns
  import Pool = ConstantPool

  // ---------- one instruction ----------

  /** CALL goes to its operand and remembers the address behind itself. */
  lemma CallDoes<D>(m: Semantics<D>, c: seq<byte>, s: State<D>)
    requires Live(c, s) && c[s.pc] == INS_CALL
    ensures Step(m, c, s) == State(Word(c, s.pc + 1), s.frames + [s.pc + 3], s.functions, s.data, false)
  {
  }

  /** RET goes to the address remembered last, or ends the run. */
  lemma RetDoes<D>(m: Semantics<D>, c: seq<byte>, s: State<D>)
    requires Live(c, s) && c[s.pc] == INS_RET
    ensures var n, t := |s.frames|, Step(m, c, s);
      if n == 0 then t == s.(halted := true)
      else t == State(s.frames[n - 1], s.frames[..n - 1], s.functions, s.data, false)
  {
  }

  lemma JmpDoes<D>(m: Semantics<D>, c: seq<byte>, s: State<D>)
    requires Live(c, s) && c[s.pc] == INS_JMP
    ensures Step(m, c, s) == s.(pc := Word(c, s.pc + 1))
  {
  }

  /** A conditional jump pops, and goes to its operand or to the next instruction. */
  lemma BranchDoes<D>(m: Semantics<D>, c: seq<byte>, s: State<D>)
    requires Live(c, s) && (c[s.pc] == INS_JFALSE || c[s.pc] == INS_JTRUE)
    ensures var to := if m.taken(c[s.pc], s.data) then Word(c, s.pc + 1) else s.pc + 3;
      Step(m, c, s) == s.(pc := to, data := m.pop(c[s.pc], s.data))
  {
  }

  /** F2O makes the next handle name its operand and goes on. */
  lemma FunctionDoes<D>(m: Semantics<D>, c: seq<byte>, s: State<D>)
    requires Live(c, s) && c[s.pc] == INS_F2O
    ensures var n := |s.functions|;
      Step(m, c, s) == s.(pc := s.pc + 3, functions := s.functions + [Word(c, s.pc + 1)],
                          data := m.makeFunction(n, s.data))
  {
  }

  /** A step shows its bytes, but for a code address, and the data it starts from; INS_JMP shows nothing. */
  lemma ShowsIs<D>(c: seq<byte>, s: State<D>)
    ensures !Live(c, s) || c[s.pc] == INS_JMP ==> Shows(c, s) == []
    ensures Live(c, s) && c[s.pc] != INS_JMP ==>
      Shows(c, s) == [Event(if IsJump(c[s.pc]) then [c[s.pc]] else c[s.pc..s.pc + LengthAt(c, s.pc)], s.data)]
  {
  }

  /** The trace of a run lists what its steps show, in order. */
  lemma {:induction false} TraceNext<D>(m: Semantics<D>, c: seq<byte>, s: State<D>, n: nat)
    ensures Trace(m, c, s, 0) == [] && Trace(m, c, s, n + 1) == Trace(m, c, s, n) + Shows(c, Run(m, c, s, n))
    decreases n
  {
    hide Step, Shows;
    if n == 0 {
      assert Trace(m, c, s, 1) == Shows(c, s) + Trace(m, c, Step(m, c, s), 0);
    } else {
      TraceNext(m, c, Step(m, c, s), n - 1);
    }
  }

  // ---------- frames along a run ----------

  /** From s to t a frame comes in, or the last one goes and execution is where it says, or frames stay. */
  ghost predicate FrameStep<D>(s: State<D>, t: State<D>) {
    && s.functions <= t.functions
    && (|| t.frames == s.frames
        || (|t.frames| == |s.frames| + 1 && s.frames <= t.frames)
        || (|t.frames| + 1 == |s.frames| && t.frames <= s.frames && !t.halted && t.pc == s.frames[|t.frames|]))
  }

  /** st goes from a state with the frames `base` and one more, r, to the first one with no more than `base`. */
  ghost predicate Excursion<D>(st: seq<State<D>>, base: seq<nat>, r: nat) {
    && |st| >= 2 && base + [r] <= st[0].frames
    && (forall j :: 0 <= j < |st| - 1 ==> |st[j].frames| > |base|)
    && |st[|st| - 1].frames| <= |base|
  }

  ghost predicate StepAt<D>(st: seq<State<D>>, k: nat) {
    k + 1 < |st| && FrameStep(st[k], st[k + 1])
  }

  lemma StillThere<D>(s: State<D>, t: State<D>, base: seq<nat>, r: nat)
    requires FrameStep(s, t) && base + [r] <= s.frames
    ensures |t.frames| > |base| ==> base + [r] <= t.frames
    ensures |t.frames| <= |base| ==> t.frames == base && t.pc == r && !t.halted
    ensures s.functions <= t.functions
  {
    assert s.frames[|base|] == (base + [r])[|base|];
    assert s.frames[..|base|] == (base + [r])[..|base|] == base;
  }

  lemma {:induction false} PrefixStays<D>(st: seq<State<D>>, base: seq<nat>, r: nat, j: nat)
    requires Excursion(st, base, r) && j < |st| - 1
    requires forall k :: 0 <= k < |st| - 1 ==> StepAt(st, k)
    ensures base + [r] <= st[j].frames && st[0].functions <= st[j].functions
    decreases j
  {
    hide FrameStep;
    if j > 0 {
      PrefixStays(st, base, r, j - 1);
      assert StepAt(st, j - 1);
      StillThere(st[j - 1], st[j], base, r);
    }
  }

  /** Whatever lies in between, such a run ends at r with the frames `base`. */
  lemma ComesBack<D>(st: seq<State<D>>, base: seq<nat>, r: nat)
    requires Excursion(st, base, r)
    requires forall k :: 0 <= k < |st| - 1 ==> StepAt(st, k)
    ensures var t := st[|st| - 1]; t.frames == base && t.pc == r && !t.halted && st[0].functions <= t.functions
  {
    hide FrameStep;
    var j := |st| - 2;
    PrefixStays(st, base, r, j);
    assert StepAt(st, j);
    StillThere(st[j], st[j + 1], base, r);
  }

  // ---------- calls ----------

  lemma StepIsFrameStep<D>(m: Semantics<D>, c: seq<byte>, s: State<D>)
    ensures FrameStep(s, Step(m, c, s))
    ensures |Step(m, c, s).frames| > |s.frames| ==>
      s.pc < |c| && Step(m, c, s).frames == s.frames + [s.pc + LengthAt(c, s.pc)]
  {
  }

  lemma {:induction false} RunNext<D>(m: Semantics<D>, c: seq<byte>, s: State<D>, n: nat)
    ensures Run(m, c, s, n + 1) == Step(m, c, Run(m, c, s, n))
    decreases n
  {
    hide Step;
    if n > 0 {
      RunNext(m, c, Step(m, c, s), n - 1);
    }
  }

  /** The states of a run. */
  ghost function States<D>(m: Semantics<D>, c: seq<byte>, s: State<D>, n: nat): (st: seq<State<D>>)
    ensures |st| == n + 1
  {
    seq(n + 1, j requires 0 <= j <= n => Run(m, c, s, j))
  }

  lemma StatesStep<D>(m: Semantics<D>, c: seq<byte>, s: State<D>, n: nat)
    ensures forall k :: 0 <= k < n ==> StepAt(States(m, c, s, n), k)
  {
    hide Step, FrameStep, Run;
    var st := States(m, c, s, n);
    forall k | 0 <= k < n
      ensures StepAt(st, k)
    {
      RunNext(m, c, s, k);
      StepIsFrameStep(m, c, st[k]);
    }
  }

  /** The run is back, for the first time, at the depth that it had at s. */
  ghost predicate BackAfter<D>(m: Semantics<D>, c: seq<byte>, s: State<D>, n: nat) {
    && n > 0 && |Run(m, c, s, n).frames| <= |s.frames|
    && forall j :: 0 < j < n ==> |Run(m, c, s, j).frames| > |s.frames|
  }

  /**
    A step that adds a frame, by CALL or by calling a function object, comes back to the instruction behind it
    with the frames it started from, whatever the callee does, and with all function objects made before it.
    */
  lemma CallsComeBack<D>(m: Semantics<D>, c: seq<byte>, s: State<D>, n: nat)
    requires |Run(m, c, s, 1).frames| > |s.frames| && BackAfter(m, c, s, n)
    ensures var t := Run(m, c, s, n);
      && s.pc < |c| && t.pc == s.pc + LengthAt(c, s.pc) && t.frames == s.frames && !t.halted
      && s.functions <= t.functions
  {
    hide Step, Run, FrameStep, LengthAt;
    FirstStep(m, c, s);
    StepIsFrameStep(m, c, s);
    var st := States(m, c, s, n);
    StatesStep(m, c, s, n);
    FunctionsGrow(s, st[1]);
    var tail := st[1..];
    forall k | 0 <= k < |tail| - 1
      ensures StepAt(tail, k)
    {
      assert StepAt(st, k + 1);
    }
    ComesBack(tail, s.frames, s.pc + LengthAt(c, s.pc));
  }

  lemma FirstStep<D>(m: Semantics<D>, c: seq<byte>, s: State<D>)
    ensures Run(m, c, s, 0) == s && Run(m, c, s, 1) == Step(m, c, s)
  {
    hide Step;
    RunNext(m, c, s, 0);
  }

  lemma FunctionsGrow<D>(s: State<D>, t: State<D>)
    requires FrameStep(s, t)
    ensures s.functions <= t.functions
  {
  }

  /** CALL at a: the callee starts at the operand, and comes back to a + 3. */
  lemma CallLaw<D>(m: Semantics<D>, c: seq<byte>, s: State<D>, n: nat)
    requires Live(c, s) && c[s.pc] == INS_CALL && BackAfter(m, c, s, n)
    ensures Run(m, c, s, 1).pc == Word(c, s.pc + 1) && Run(m, c, s, 1).data == s.data
    ensures var t := Run(m, c, s, n);
      t.pc == s.pc + 3 && t.frames == s.frames && !t.halted && s.functions <= t.functions
  {
    hide Step, Run, BackAfter, Exec;
    FirstStep(m, c, s);
    CallDoes(m, c, s);
    CallsComeBack(m, c, s, n);
  }

  /** The callee that comes to a RET with no frames but those it was entered with is back with the next step. */
  lemma ReturnIsBack<D>(m: Semantics<D>, c: seq<byte>, s: State<D>, n: nat)
    requires Live(c, s) && c[s.pc] == INS_CALL && n > 0
    requires forall j :: 0 < j <= n ==> |Run(m, c, s, j).frames| > |s.frames|
    requires var u := Run(m, c, s, n); Live(c, u) && c[u.pc] == INS_RET && |u.frames| == |s.frames| + 1
    ensures BackAfter(m, c, s, n + 1)
    ensures var u, t := Run(m, c, s, n), Run(m, c, s, n + 1);
      t == State(s.pc + 3, s.frames, u.functions, u.data, false)
  {
    hide Step, Run, Exec;
    RunNext(m, c, s, n);
    RetDoes(m, c, Run(m, c, s, n));
    CallLaw(m, c, s, n + 1);
  }

  // ---------- function objects ----------

  lemma {:induction false} HandlesStay<D>(m: Semantics<D>, c: seq<byte>, s: State<D>, n: nat)
    ensures s.functions <= Run(m, c, s, n).functions
    decreases n
  {
    hide Step, FrameStep;
    if n > 0 {
      StepIsFrameStep(m, c, s);
      FunctionsGrow(s, Step(m, c, s));
      HandlesStay(m, c, Step(m, c, s), n - 1);
    }
  }

  /** An instruction that calls the function object made by F2O at a goes to the operand of that F2O. */
  lemma FunctionIsCalled<D>(m: Semantics<D>, c: seq<byte>, s: State<D>, n: nat, d: D)
    requires Live(c, s) && c[s.pc] == INS_F2O && n > 0
    requires var u := Run(m, c, s, n);
      && Live(c, u) && !IsJump(c[u.pc]) && c[u.pc] != INS_LBL && c[u.pc] != INS_RET
      && m.run(c[u.pc..u.pc + LengthAt(c, u.pc)], u.data) == Invoke(d, |s.functions|)
    ensures var u, t := Run(m, c, s, n), Run(m, c, s, n + 1);
      t.pc == Word(c, s.pc + 1) && t.frames == u.frames + [u.pc + LengthAt(c, u.pc)] && t.data == d && !t.halted
  {
    hide Run, Word, LengthAt;
    FirstStep(m, c, s);
    FunctionDoes(m, c, s);
    var u := Run(m, c, s, n);
    LaterHandles(m, c, s, n);
    RunNext(m, c, s, n);
  }

  lemma LaterHandles<D>(m: Semantics<D>, c: seq<byte>, s: State<D>, n: nat)
    requires n > 0
    ensures Step(m, c, s).functions <= Run(m, c, s, n).functions
  {
    hide Step;
    HandlesStay(m, c, Step(m, c, s), n - 1);
  }

  // ---------- code and constants, linked or not ----------

  /** CALL, where the store is an image: the operand counts from the instruction. */
  lemma LinkedCallDoes<D>(h: Linked.Host<D>, st: Linked.Store, s: State<D>)
    requires Live(st.Code(), s) && st.Code()[s.pc] == INS_CALL
    ensures var to := if st.Image? then Wrap16(Word(st.Code(), s.pc + 1) + s.pc) else Word(st.Code(), s.pc + 1);
      Linked.Step(h, st, s) == State(to, s.frames + [s.pc + 3], s.functions, s.data, false)
  {
  }

  /** F2O for n arguments: the next handle names the operand, in an image too. */
  lemma LinkedFunctionDoes<D>(h: Linked.Host<D>, st: Linked.Store, s: State<D>)
    requires Live(st.Code(), s) && Linked.IsF2O(st.Code()[s.pc])
    ensures var n, k := st.Code()[s.pc] - INS_F2O, |s.functions|;
      Linked.Step(h, st, s) == s.(pc := s.pc + 3, functions := s.functions + [Word(st.Code(), s.pc + 1)],
                                  data := h.makeFunction(n, k, s.data))
  {
  }

  /** OBJCONST, OBJNEW and EXTCALL hand the constant to the data side, or end the run if it is too long. */
  lemma ConstantDoes<D>(h: Linked.Host<D>, code: seq<byte>, pool: seq<byte>, s: State<D>)
    requires Live(code, s) && IsPoolRef(code[s.pc]) && code[s.pc] != INS_SWITCH
    ensures var op, l := code[s.pc], Pool.LoadConstant(pool, Word(code, s.pc + 1));
      var t := Linked.Step(h, Linked.Unlinked(code, pool), s);
      && (l.OutOfBounds? ==> t == s.(halted := true))
      && (l.Loaded? && h.m.run([op] + l.value, s.data).Next? ==>
            t == s.(pc := s.pc + 3, data := h.m.run([op] + l.value, s.data).data))
  {
    hide Pool.LoadConstant, Word;
  }

  /** SWITCH pops, and goes to the label of the first case that matches what it pops, or to the default. */
  lemma SwitchDoes<D>(u: Unit, i: nat, pick: seq<nat>, h: Linked.Host<D>, s: State<D>)
    requires u.Valid() && i < u.Count() && u.Op(i) == INS_SWITCH && u.Picks(i, pick)
    requires !s.halted && s.pc == u.at[i]
    ensures Linked.Step(h, Linked.Before(u), s)
         == s.(pc := u.Chosen(i, pick, Linked.Matches(h.equal, s.data), 0), data := h.m.pop(INS_SWITCH, s.data))
  {
    hide u.Valid, u.Image, LengthAt, Pool.Contents, Exec, u.Picks, u.Chosen, u.RelocatedTable, Linked.Store.Constant,
      Linked.Store.Choice, Linked.Matches;
    Linked.SameInstruction(u, i);
    Linked.SwitchAgrees(u, i, pick, Linked.Matches(h.equal, s.data));
  }

  lemma LinkedIsFrameStep<D>(h: Linked.Host<D>, st: Linked.Store, s: State<D>)
    ensures FrameStep(s, Linked.Step(h, st, s))
    ensures |Linked.Step(h, st, s).frames| > |s.frames| ==>
      var c := st.Code(); s.pc < |c| && Linked.Step(h, st, s).frames == s.frames + [s.pc + LengthAt(c, s.pc)]
  {
    hide Linked.Store.Constant, Linked.Store.Choice, Linked.Store.Target, Word;
  }

  lemma {:induction false} LinkedRunNext<D>(h: Linked.Host<D>, st: Linked.Store, s: State<D>, n: nat)
    ensures Linked.Run(h, st, s, n + 1) == Linked.Step(h, st, Linked.Run(h, st, s, n))
    decreases n
  {
    hide Linked.Step;
    if n > 0 {
      LinkedRunNext(h, st, Linked.Step(h, st, s), n - 1);
    }
  }

  lemma LinkedStatesStep<D>(h: Linked.Host<D>, st: Linked.Store, s: State<D>, n: nat) returns (r: seq<State<D>>)
    ensures |r| == n + 1 && forall j :: 0 <= j <= n ==> r[j] == Linked.Run(h, st, s, j)
    ensures forall k :: 0 <= k < n ==> StepAt(r, k)
  {
    hide Linked.Step, FrameStep, Linked.Run;
    r := seq(n + 1, j requires 0 <= j <= n => Linked.Run(h, st, s, j));
    forall k | 0 <= k < n
      ensures StepAt(r, k)
    {
      LinkedRunNext(h, st, s, k);
      LinkedIsFrameStep(h, st, r[k]);
    }
  }

  ghost predicate LinkedBackAfter<D>(h: Linked.Host<D>, st: Linked.Store, s: State<D>, n: nat) {
    && n > 0 && |Linked.Run(h, st, s, n).frames| <= |s.frames|
    && forall j :: 0 < j < n ==> |Linked.Run(h, st, s, j).frames| > |s.frames|
  }

  /** The call law over an image or over code and pool, with SWITCH and all F2O in the callee. */
  lemma LinkedCallsComeBack<D>(h: Linked.Host<D>, st: Linked.Store, s: State<D>, n: nat)
    requires |Linked.Run(h, st, s, 1).frames| > |s.frames| && LinkedBackAfter(h, st, s, n)
    ensures var c, t := st.Code(), Linked.Run(h, st, s, n);
      s.pc < |c| && t.pc == s.pc + LengthAt(c, s.pc) && t.frames == s.frames && !t.halted && s.functions <= t.functions
  {
    hide Linked.Step, Linked.Run, FrameStep, LengthAt;
    LinkedFirstStep(h, st, s);
    LinkedIsFrameStep(h, st, s);
    var r := LinkedStatesStep(h, st, s, n);
    FunctionsGrow(s, r[1]);
    var tail := r[1..];
    forall k | 0 <= k < |tail| - 1
      ensures StepAt(tail, k)
    {
      assert StepAt(r, k + 1);
    }
    ComesBack(tail, s.frames, s.pc + LengthAt(st.Code(), s.pc));
  }

  lemma LinkedFirstStep<D>(h: Linked.Host<D>, st: Linked.Store, s: State<D>)
    ensures Linked.Run(h, st, s, 0) == s && Linked.Run(h, st, s, 1) == Linked.Step(h, st, s)
  {
    hide Linked.Step;
    LinkedRunNext(h, st, s, 0);
  }

  lemma LinkedCallLaw<D>(h: Linked.Host<D>, st: Linked.Store, s: State<D>, n: nat)
    requires Live(st.Code(), s) && st.Code()[s.pc] == INS_CALL && LinkedBackAfter(h, st, s, n)
    ensures Linked.Run(h, st, s, 1).pc
         == if st.Image? then Wrap16(Word(st.Code(), s.pc + 1) + s.pc) else Word(st.Code(), s.pc + 1)
    ensures var t := Linked.Run(h, st, s, n);
      t.pc == s.pc + 3 && t.frames == s.frames && !t.halted && s.functions <= t.functions
  {
    hide Linked.Step, Linked.Run, LinkedBackAfter, Exec;
    LinkedFirstStep(h, st, s);
    LinkedCallDoes(h, st, s);
    LinkedCallsComeBack(h, st, s, n);
  }
}
