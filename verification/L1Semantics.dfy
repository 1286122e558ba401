/**
  The meaning of bytecode up to the layout of its code, and the theorem that passes 1 and 2 of
  the L1 optimizer keep it.
  */
module L1Semantics {
  import opened Bytes
  import opened Isa
  import opened Program
  import opened Threading
  import opened Compaction

  // ---------- a machine over any data ----------

  /** What an instruction without a code address does: go on, call the function behind a handle, raise an exception. */
  datatype Effect<D> = Next(data: D) | Invoke(data: D, handle: nat) | Stop

  /**
    The data side of the machine, kept arbitrary. Function objects made by INS_F2O are handles
    numbered in order of creation; the machine keeps their code addresses.
    */
  datatype Semantics<!D> = Semantics(
    run: (seq<byte>, D) -> Effect<D>,
    taken: (byte, D) -> bool,
    pop: (byte, D) -> D,
    makeFunction: (nat, D) -> D)

  datatype State<D> = State(pc: nat, frames: seq<nat>, functions: seq<nat>, data: D, halted: bool)

  /** An executed instruction, without its code address, and the data it saw. */
  datatype Event<D> = Event(ins: seq<byte>, data: D)

  /** An instruction with its operand and successor resolved; `ins` leaves out code addresses. */
  datatype Decoded = Decoded(op: byte, ins: seq<byte>, target: nat, next: nat)

  function Exec<D>(m: Semantics<D>, i: Decoded, s: State<D>): State<D> {
    if i.op == INS_LBL then s                         // vm_decode never leaves a label
    else if i.op == INS_RET then
      if s.frames == [] then s.(halted := true)
      else s.(pc := s.frames[|s.frames| - 1], frames := s.frames[..|s.frames| - 1])
    else if i.op == INS_JMP then s.(pc := i.target)
    else if i.op == INS_CALL then s.(pc := i.target, frames := s.frames + [i.next])
    else if i.op == INS_F2O then
      s.(pc := i.next, functions := s.functions + [i.target], data := m.makeFunction(|s.functions|, s.data))
    else if IsJump(i.op) then
      s.(pc := if m.taken(i.op, s.data) then i.target else i.next, data := m.pop(i.op, s.data))
    else
      match m.run(i.ins, s.data)
      case Next(d) => s.(pc := i.next, data := d)
      case Stop => s.(halted := true)
      case Invoke(d, h) =>
        if h < |s.functions| then s.(pc := s.functions[h], frames := s.frames + [i.next], data := d)
        else s.(halted := true)
  }

  function Decode(c: seq<byte>, pc: nat): Decoded
    requires pc < |c| && pc + LengthAt(c, pc) <= |c|
  {
    var next := pc + LengthAt(c, pc);
    if IsJump(c[pc]) then Decoded(c[pc], [c[pc]], Word(c, pc + 1), next) else Decoded(c[pc], c[pc..next], 0, next)
  }

  /** There is an instruction to execute. */
  predicate Live<D>(c: seq<byte>, s: State<D>) {
    !s.halted && s.pc < |c| && s.pc + LengthAt(c, s.pc) <= |c|
  }

  function Step<D>(m: Semantics<D>, c: seq<byte>, s: State<D>): State<D> {
    if Live(c, s) then Exec(m, Decode(c, s.pc), s) else s.(halted := true)
  }

  function Run<D>(m: Semantics<D>, c: seq<byte>, s: State<D>, n: nat): State<D>
    decreases n
  {
    if n == 0 then s else Run(m, c, Step(m, c, s), n - 1)
  }

  /** What one step shows: everything but INS_JMP. */
  function Shows<D>(c: seq<byte>, s: State<D>): seq<Event<D>> {
    if Live(c, s) && c[s.pc] != INS_JMP then [Event(Decode(c, s.pc).ins, s.data)] else []
  }

  function Trace<D>(m: Semantics<D>, c: seq<byte>, s: State<D>, n: nat): seq<Event<D>>
    decreases n
  {
    if n == 0 then [] else Shows(c, s) + Trace(m, c, Step(m, c, s), n - 1)
  }

  // ---------- the same state in two layouts ----------

  /** Every code address of s is below n. */
  ghost predicate Within<D>(n: nat, s: State<D>) {
    && s.pc < n && (forall k :: 0 <= k < |s.frames| ==> s.frames[k] < n)
    && (forall k :: 0 <= k < |s.functions| ==> s.functions[k] < n)
  }

  ghost function Addresses(where: seq<nat>, s: seq<nat>): seq<nat>
    requires forall k :: 0 <= k < |s| ==> s[k] < |where|
  {
    seq(|s|, k requires 0 <= k < |s| => where[s[k]])
  }

  /** The state s, whose code addresses are instruction numbers, with instruction i at where[i]. */
  ghost function Place<D>(where: seq<nat>, s: State<D>): State<D>
    requires Within(|where|, s)
  {
    State(where[s.pc], Addresses(where, s.frames), Addresses(where, s.functions), s.data, s.halted)
  }

  /** Execution does not depend on where instructions are. */
  lemma ExecIsNatural<D>(m: Semantics<D>, where: seq<nat>, i: Decoded, j: Decoded, s: State<D>)
    requires Within(|where|, s) && i.target < |where| && i.next < |where|
    requires j.op == i.op && j.ins == i.ins && j.next == where[i.next] && (IsJump(i.op) ==> j.target == where[i.target])
    ensures Within(|where|, Exec(m, i, s))
    ensures Exec(m, j, Place(where, s)) == Place(where, Exec(m, i, s))
  {
  }

  // ---------- a program run on instruction numbers ----------

  ghost function NumberDecode(p: Program, i: nat): Decoded
    requires p.Valid() && i < p.Count()
  {
    var op := p.Op(i);
    assert p.Follows(i) && p.Aims(i);
    if IsJump(op) then Decoded(op, [op], p.to[i], i + 1)
    else Decoded(op, p.code[p.at[i]..p.at[i + 1]], 0, i + 1)
  }

  ghost function NumberStep<D>(m: Semantics<D>, p: Program, s: State<D>): (t: State<D>)
    requires p.Valid() && Within(p.Count() + 1, s)
    ensures Within(p.Count() + 1, t)
  {
    if s.halted || s.pc == p.Count() then s.(halted := true)
    else
      assert p.Aims(s.pc);
      Exec(m, NumberDecode(p, s.pc), s)
  }

  ghost function NumberShows<D>(p: Program, s: State<D>): seq<Event<D>>
    requires p.Valid() && Within(p.Count() + 1, s)
  {
    if s.halted || s.pc == p.Count() || p.Op(s.pc) == INS_JMP then [] else [Event(NumberDecode(p, s.pc).ins, s.data)]
  }

  /** Executing p where its own code puts it. */
  lemma OriginalStep<D>(m: Semantics<D>, p: Program, s: State<D>)
    requires p.Valid() && Within(p.Count() + 1, s)
    ensures Step(m, p.code, Place(p.at, s)) == Place(p.at, NumberStep(m, p, s))
    ensures Shows(p.code, Place(p.at, s)) == NumberShows(p, s)
  {
    if s.pc < p.Count() {
      assert p.Follows(s.pc) && p.Aims(s.pc);
      var i, j := NumberDecode(p, s.pc), Decode(p.code, p.at[s.pc]);
      assert j == if IsJump(i.op) then i.(target := p.at[i.target], next := p.at[i.next]) else i.(next := p.at[i.next]);
      ExecIsNatural(m, p.at, i, j, s);
    }
  }

  ghost function NewOffsets(p: Program): (w: seq<nat>)
    requires p.Valid()
  {
    seq(p.Count() + 1, i requires 0 <= i <= p.Count() => New(p, i))
  }

  /**
    What the theorem asks of threaded code: only INS_JMP is deleted, every jump is relocated right,
    and there is no SWITCH, whose jump table is not part of the code.
    */
  ghost predicate Safe(p: Program)
    requires p.Valid()
  {
    forall i {:trigger p.Op(i)} :: 0 <= i < p.Count() ==>
      && p.Op(i) != INS_SWITCH
      && (Removed(p, i) ==> p.Op(i) == INS_JMP)
      && (IsJump(p.Op(i)) ==> Relocatable(p, i))
  }

  /** A surviving instruction of p as the compacted code d has it. */
  lemma CompactedDecode(p: Program, d: seq<byte>, i: nat)
    requires p.Valid() && |p.code| < BUFFER_SIZE && Safe(p) && Compacted(p, d) && i < p.Count() && !Removed(p, i)
    ensures New(p, i) < |d| && d[New(p, i)] == p.Op(i) && New(p, i) + LengthAt(d, New(p, i)) <= |d|
    ensures var w, n := NewOffsets(p), NumberDecode(p, i);
            && n.op == p.Op(i) && n.next < |w| && n.target < |w|
            && Decode(d, New(p, i)) == n.(target := if IsJump(n.op) then w[n.target] else 0, next := w[n.next])
  {
    hide Program.Valid, Program.Laid, Relocatable, Relocated, Removed, Word;
    p.Instruction(i);
    assert Emitted(p, d, i) && p.Op(i) == p.Op(i);
    var a, n := New(p, i), p.Size(i);
    NewIsMonotone(p, i + 1, p.Count());
    if IsJump(p.Op(i)) {
      RelocatedIsExact(p, i);
    } else {
      SameLengthAt(d, a, p.code, p.at[i], n);
    }
  }

  /** Equal bytes are equally long instructions. */
  lemma SameLengthAt(c: seq<byte>, a: nat, d: seq<byte>, b: nat, n: nat)
    requires a + n <= |c| && b + n <= |d| && c[a..a + n] == d[b..b + n] && b < |d| && LengthAt(d, b) == n
    ensures a < |c| && c[a] == d[b] && LengthAt(c, a) == n
  {
    assert c[a..a + n][0] == c[a];
    assert n >= 2 ==> c[a..a + n][1] == c[a + 1];
  }

  /** Executing a surviving instruction of p in the compacted code d. */
  lemma CompactedStep<D>(m: Semantics<D>, p: Program, d: seq<byte>, s: State<D>)
    requires p.Valid() && |p.code| < BUFFER_SIZE && Safe(p) && Compacted(p, d)
    requires Within(p.Count() + 1, s) && (s.halted || s.pc == p.Count() || !Removed(p, s.pc))
    ensures Step(m, d, Place(NewOffsets(p), s)) == Place(NewOffsets(p), NumberStep(m, p, s))
    ensures Shows(d, Place(NewOffsets(p), s)) == NumberShows(p, s)
  {
    hide Program.Valid, Program.Laid, Exec, New, Removed, Safe, LengthAt, NumberDecode, Decode, Emitted;
    if s.pc < p.Count() && !s.halted {
      CompactedDecode(p, d, s.pc);
      ExecIsNatural(m, NewOffsets(p), NumberDecode(p, s.pc), Decode(d, New(p, s.pc)), s);
    }
  }

  // ---------- the simulation ----------

  ghost function NumberRun<D>(m: Semantics<D>, p: Program, s: State<D>, n: nat): (t: State<D>)
    requires p.Valid() && Within(p.Count() + 1, s)
    ensures Within(p.Count() + 1, t)
    decreases n
  {
    if n == 0 then s else NumberRun(m, p, NumberStep(m, p, s), n - 1)
  }

  ghost function NumberTrace<D>(m: Semantics<D>, p: Program, s: State<D>, n: nat): seq<Event<D>>
    requires p.Valid() && Within(p.Count() + 1, s)
    decreases n
  {
    if n == 0 then [] else NumberShows(p, s) + NumberTrace(m, p, NumberStep(m, p, s), n - 1)
  }

  lemma {:induction false} RunsCompose<D>(m: Semantics<D>, p: Program, s: State<D>, a: nat, b: nat, n: nat)
    requires p.Valid() && Within(p.Count() + 1, s) && n == a + b
    ensures var t := NumberRun(m, p, s, a);
            && NumberRun(m, p, s, n) == NumberRun(m, p, t, b)
            && NumberTrace(m, p, s, n) == NumberTrace(m, p, s, a) + NumberTrace(m, p, t, b)
    decreases a
  {
    hide NumberStep, NumberShows;
    if a > 0 {
      RunsCompose(m, p, NumberStep(m, p, s), a - 1, b, n - 1);
    }
  }

  lemma {:induction false} OriginalRun<D>(m: Semantics<D>, p: Program, s: State<D>, n: nat)
    requires p.Valid() && Within(p.Count() + 1, s)
    ensures Run(m, p.code, Place(p.at, s), n) == Place(p.at, NumberRun(m, p, s, n))
    ensures Trace(m, p.code, Place(p.at, s), n) == NumberTrace(m, p, s, n)
    decreases n
  {
    if n > 0 {
      OriginalStep(m, p, s);
      OriginalRun(m, p, NumberStep(m, p, s), n - 1);
    }
  }

  /** Following a chain of INS_JMP shows nothing. */
  lemma {:induction false} ChainRun<D>(m: Semantics<D>, p: Program, s: State<D>) returns (k: nat)
    requires p.Valid() && Within(p.Count() + 1, s) && s.pc < p.Count() && !s.halted
    ensures NumberRun(m, p, s, k) == s.(pc := p.ChainEnd(s.pc)) && NumberTrace(m, p, s, k) == []
    decreases if p.Op(s.pc) == INS_JMP then p.rank[s.pc] + 1 else 0
  {
    hide NumberStep, NumberShows, NumberRun, NumberTrace, Program.ChainEnd, Program.Valid;
    if p.Op(s.pc) == INS_JMP {
      JmpStep(m, p, s);
      var r := ChainRun(m, p, s.(pc := p.to[s.pc]));
      OneMore(m, p, s, r);
      k := r + 1;
    } else {
      p.EndOfChain(s.pc);
      NothingRun(m, p, s);
      k := 0;
    }
  }

  lemma NothingRun<D>(m: Semantics<D>, p: Program, s: State<D>)
    requires p.Valid() && Within(p.Count() + 1, s)
    ensures NumberRun(m, p, s, 0) == s && NumberTrace(m, p, s, 0) == []
  {
  }

  lemma JmpStep<D>(m: Semantics<D>, p: Program, s: State<D>)
    requires p.Valid() && Within(p.Count() + 1, s) && s.pc < p.Count() && !s.halted && p.Op(s.pc) == INS_JMP
    ensures |p.to| == |p.rank| == p.Count() && p.to[s.pc] < p.Count()
    ensures NumberStep(m, p, s) == s.(pc := p.to[s.pc]) && NumberShows(p, s) == []
    ensures p.ChainEnd(s.pc) == p.ChainEnd(p.to[s.pc])
    ensures p.Op(p.to[s.pc]) == INS_JMP ==> p.rank[p.to[s.pc]] < p.rank[s.pc]
  {
    p.Instruction(s.pc);
  }

  /** Threading changes nothing but branch targets. */
  lemma ThreadedDecode(p: Program, d: seq<byte>, i: nat)
    requires p.Valid() && ThreadedUpTo(p, d, p.Count()) && i < p.Count()
    ensures var q := After(p, d); q.Valid() && q.Op(i) == p.Op(i)
    ensures NumberDecode(After(p, d), i) ==
            NumberDecode(p, i).(target := if IsJump(p.Op(i)) then p.Threaded(i) else 0)
  {
    AfterIsValid(p, d);
    assert Rewritten(p, d, p.Count(), i) && p.Aims(i) && p.Follows(i);
  }

  /** Executing the threaded instruction leads where the original leads, or from there along the chain. */
  lemma ThreadedExec<D>(m: Semantics<D>, p: Program, d: seq<byte>, s: State<D>)
    requires p.Valid() && ThreadedUpTo(p, d, p.Count()) && Within(p.Count() + 1, s)
    ensures var q, t := After(p, d), NumberStep(m, p, s);
            && q.Valid() && q.Count() == p.Count() && NumberShows(p, s) == NumberShows(q, s)
            && (NumberStep(m, q, s) == t
                || (!t.halted && t.pc < p.Count() && NumberStep(m, q, s) == t.(pc := p.ChainEnd(t.pc))))
  {
    hide Program.Valid, Program.Laid, ThreadedUpTo, LengthAt;
    AfterIsValid(p, d);
    if !s.halted && s.pc < p.Count() {
      p.Instruction(s.pc);
      ThreadedDecode(p, d, s.pc);
    }
  }

  /** One step of threaded code is one step of the original followed by INS_JMP steps. */
  lemma ThreadedStep<D>(m: Semantics<D>, p: Program, d: seq<byte>, s: State<D>) returns (k: nat)
    requires p.Valid() && ThreadedUpTo(p, d, p.Count()) && Within(p.Count() + 1, s)
    ensures var q := After(p, d);
            && q.Valid() && 1 <= k
            && NumberRun(m, p, s, k) == NumberStep(m, q, s) && NumberTrace(m, p, s, k) == NumberShows(q, s)
  {
    hide *;
    ThreadedExec(m, p, d, s);
    var q, t := After(p, d), NumberStep(m, p, s);
    k := 0;
    if NumberStep(m, q, s) != t {
      k := ChainRun(m, p, t);
    }
    OneMore(m, p, s, k);
    k := k + 1;
  }

  lemma OneMore<D>(m: Semantics<D>, p: Program, s: State<D>, k: nat)
    requires p.Valid() && Within(p.Count() + 1, s)
    ensures var t := NumberStep(m, p, s);
            && NumberRun(m, p, s, k + 1) == NumberRun(m, p, t, k)
            && NumberTrace(m, p, s, k + 1) == NumberShows(p, s) + NumberTrace(m, p, t, k)
            && NumberRun(m, p, t, 0) == t && NumberTrace(m, p, t, 0) == []
  {
    hide NumberStep, NumberShows;
  }

  /** A threaded run is an original run with INS_JMP steps put in. */
  lemma {:induction false} ThreadedRun<D>(m: Semantics<D>, p: Program, d: seq<byte>, s: State<D>, n: nat)
    returns (k: nat)
    requires p.Valid() && ThreadedUpTo(p, d, p.Count()) && Within(p.Count() + 1, s)
    ensures var q := After(p, d);
            && q.Valid() && n <= k
            && NumberRun(m, p, s, k) == NumberRun(m, q, s, n) && NumberTrace(m, p, s, k) == NumberTrace(m, q, s, n)
    decreases n
  {
    hide NumberStep, NumberShows, ThreadedUpTo;
    AfterIsValid(p, d);
    k := 0;
    if n > 0 {
      var a := ThreadedStep(m, p, d, s);
      var t := NumberRun(m, p, s, a);
      var b := ThreadedRun(m, p, d, t, n - 1);
      k := a + b;
      RunsCompose(m, p, s, a, b, k);
    }
  }

  lemma DeletedTakesNoRoom<D>(p: Program, s: State<D>)
    requires p.Valid() && Within(p.Count() + 1, s) && s.pc < p.Count() && Removed(p, s.pc)
    ensures Place(NewOffsets(p), s.(pc := s.pc + 1)) == Place(NewOffsets(p), s)
  {
  }

  /** Deleted instructions lead, step by step, to the surviving one that took their place. */
  lemma {:induction false} SkipDeleted<D>(m: Semantics<D>, p: Program, s: State<D>) returns (k: nat)
    requires p.Valid() && Safe(p) && Within(p.Count() + 1, s)
    ensures var t := NumberRun(m, p, s, k);
            && Place(NewOffsets(p), t) == Place(NewOffsets(p), s) && NumberTrace(m, p, s, k) == []
            && (t.halted || t.pc == p.Count() || !Removed(p, t.pc))
    decreases p.Count() - s.pc
  {
    hide NumberStep, NumberShows, Place, NewOffsets;
    k := 0;
    if !s.halted && s.pc < p.Count() && Removed(p, s.pc) {
      var t := s.(pc := s.pc + 1);
      assert p.Op(s.pc) == INS_JMP;
      DeletedJmpIsUnseen(m, p, s);
      DeletedTakesNoRoom(p, s);
      var r := SkipDeleted(m, p, t);
      k := r + 1;
    }
  }

  /** A run of the compacted code is a run of the threaded code with deleted INS_JMP steps put in. */
  lemma {:induction false} CompactedRun<D>(m: Semantics<D>, p: Program, d: seq<byte>, s: State<D>, n: nat)
    returns (k: nat)
    requires p.Valid() && |p.code| < BUFFER_SIZE && Safe(p) && Compacted(p, d) && Within(p.Count() + 1, s)
    ensures n <= k
    ensures Run(m, d, Place(NewOffsets(p), s), n) == Place(NewOffsets(p), NumberRun(m, p, s, k))
    ensures Trace(m, d, Place(NewOffsets(p), s), n) == NumberTrace(m, p, s, k)
    decreases n
  {
    hide NumberStep, NumberShows, Safe, Compacted, NewOffsets, Place, Step, Shows;
    k := 0;
    if n > 0 {
      var a := SkipDeleted(m, p, s);
      var t := NumberRun(m, p, s, a);
      CompactedStep(m, p, d, t);
      var u := NumberStep(m, p, t);
      var b := CompactedRun(m, p, d, u, n - 1);
      k := a + b + 1;
      RunsCompose(m, p, s, a, b + 1, k);
    }
  }

  /**
    Passes 1 and 2 keep the meaning of a program: from any state, whatever the data, n steps of the
    optimized code correspond to k >= n steps of the original, to the same state up to the layout of
    the code, and the two runs execute the same instructions on the same data but for INS_JMP.
    */
  lemma OptimizedRuns<D>(m: Semantics<D>, p: Program, threaded: seq<byte>, optimized: seq<byte>,
      start: State<D>, n: nat)
    returns (k: nat, s: State<D>)
    requires p.Valid() && |p.code| < BUFFER_SIZE && ThreadedUpTo(p, threaded, p.Count())
    requires var q := After(p, threaded); q.Valid() ==> Safe(q) && Compacted(q, optimized)
    requires Within(p.Count() + 1, start)
    ensures n <= k && Within(p.Count() + 1, s)
    ensures var q := After(p, threaded);
            && q.Valid()
            && Run(m, p.code, Place(p.at, start), k) == Place(p.at, s)
            && Run(m, optimized, Place(NewOffsets(q), start), n) == Place(NewOffsets(q), s)
            && Trace(m, p.code, Place(p.at, start), k) == Trace(m, optimized, Place(NewOffsets(q), start), n)
  {
    hide Program.Valid, Rewritten, Safe, Compacted, NumberRun, NumberTrace, Run, Trace, Place, NewOffsets;
    AfterIsValid(p, threaded);
    var q := After(p, threaded);
    var j := CompactedRun(m, q, optimized, start, n);
    k := ThreadedRun(m, p, threaded, start, j);
    s := NumberRun(m, p, start, k);
    OriginalRun(m, p, start, k);
  }

  lemma {:induction false} TracesGrow<D>(m: Semantics<D>, c: seq<byte>, s: State<D>, a: nat, b: nat)
    requires a <= b
    ensures Trace(m, c, s, a) <= Trace(m, c, s, b)
    decreases a
  {
    hide Step, Shows;
    if a > 0 {
      TracesGrow(m, c, Step(m, c, s), a - 1, b - 1);
    }
  }

  /** Conversely nothing is lost: as many steps of the optimized code execute all that n original steps do. */
  lemma NothingIsLost<D>(m: Semantics<D>, p: Program, threaded: seq<byte>, optimized: seq<byte>,
      start: State<D>, n: nat)
    requires p.Valid() && |p.code| < BUFFER_SIZE && ThreadedUpTo(p, threaded, p.Count())
    requires var q := After(p, threaded); q.Valid() ==> Safe(q) && Compacted(q, optimized)
    requires Within(p.Count() + 1, start)
    ensures var q := After(p, threaded);
            && q.Valid()
            && Trace(m, p.code, Place(p.at, start), n) <= Trace(m, optimized, Place(NewOffsets(q), start), n)
  {
    hide Program.Valid, ThreadedUpTo, Safe, Compacted, Run, Trace, Place, NewOffsets;
    var k, s := OptimizedRuns(m, p, threaded, optimized, start, n);
    TracesGrow(m, p.code, Place(p.at, start), n, k);
  }

  /** Deleting an INS_JMP to its own successor goes unseen whatever the data. */
  lemma DeletedJmpIsUnseen<D>(m: Semantics<D>, p: Program, s: State<D>)
    requires p.Valid() && Within(p.Count() + 1, s) && !s.halted && s.pc < p.Count()
    requires Removed(p, s.pc) && p.Op(s.pc) == INS_JMP
    ensures NumberStep(m, p, s) == s.(pc := s.pc + 1) && NumberShows(p, s) == []
  {
    assert p.Aims(s.pc);
  }

  /** Deleting any other instruction does not: there are data on which it does more than go on. */
  lemma OnlyDeletedJmpIsUnseen(p: Program, i: nat) returns (m: Semantics<int>, s: State<int>)
    requires p.Valid() && i < p.Count() && Removed(p, i)
    ensures Within(p.Count() + 1, s) && !s.halted && s.pc == i
    ensures NumberStep(m, p, s) == s.(pc := i + 1) <==> p.Op(i) == INS_JMP
  {
    m := Semantics((b, d) => Next(d), (op, d) => true, (op, d) => d + 1, (n, d) => d + 1);
    s := State(i, [], [], 0, false);
    assert p.Aims(i) && p.Follows(i);
    assert |s.frames + [i + 1]| == 1 && |s.functions + [p.to[i]]| == 1;
  }

  /**
    The condition on deleted instructions is needed: JFALSE to its own successor is deleted although
    it pops its operand, here the data 1.
    */
  lemma DeletedBranchLosesAPop() returns (p: Program, m: Semantics<nat>)
    ensures p.Valid() && p.Count() == 2 && |p.code| < BUFFER_SIZE && Removed(p, 0) && p.Op(0) == INS_JFALSE
    ensures Compacted(p, [INS_RET])
    ensures var start := State(0, [], [], 1, false);
            Run(m, p.code, start, 2).data != Run(m, [INS_RET], start, 1).data && Run(m, [INS_RET], start, 1).halted
  {
    p := Program([INS_JFALSE, 0, 3, INS_RET], [0, 3, 4], [1, 0], [0, 0]);
    m := Semantics((b, d: nat) => Next(d), (op, d: nat) => true, (op, d: nat) => 0, (n, d: nat) => d);
    BranchIsDeleted(p);
    TwoSteps(m, p.code);
    OneStep(m, [INS_RET]);
  }

  lemma BranchIsDeleted(p: Program)
    requires p == Program([INS_JFALSE, 0, 3, INS_RET], [0, 3, 4], [1, 0], [0, 0])
    ensures p.Valid() && p.Count() == 2 && Removed(p, 0) && p.Op(0) == INS_JFALSE && Compacted(p, [INS_RET])
  {
    assert p.Follows(0) && p.Follows(1);
    assert p.Aims(0) && p.Aims(1);
    assert Emitted(p, [INS_RET], 0) && Emitted(p, [INS_RET], 1);
  }

  lemma TwoSteps(m: Semantics<nat>, c: seq<byte>)
    requires c == [INS_JFALSE, 0, 3, INS_RET] && (forall d: nat :: m.pop(INS_JFALSE, d) == 0)
    ensures Run(m, c, State(0, [], [], 1, false), 2).data == 0
  {
    var start := State(0, [], [], 1, false);
    assert Step(m, c, start).data == 0;
    assert Run(m, c, start, 2) == Run(m, c, Step(m, c, start), 1) == Run(m, c, Step(m, c, Step(m, c, start)), 0);
  }

  lemma OneStep(m: Semantics<nat>, c: seq<byte>)
    requires c == [INS_RET]
    ensures Run(m, c, State(0, [], [], 1, false), 1) == State(0, [], [], 1, true)
  {
    var start := State(0, [], [], 1, false);
    assert Run(m, c, start, 1) == Run(m, c, Step(m, c, start), 0);
  }
}
