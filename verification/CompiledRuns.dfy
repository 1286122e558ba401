/**
  Optimizer and linker together: a run of the image that is_link_code makes of optimized code is a run
  of the code and the pool as they were before both, with INS_JMP steps put in.
  */
module CompiledRuns {
  import opened Bytes
  import opened Isa
  import opened Layout
  import opened Program
  import opened Threading
  import opened Compaction
  import opened L1Semantics
  import opened Linker
  import Linked = LinkedRuns
  import Pool = ConstantPool

  /** What an instruction without a code address does when its constant comes from the pool `data`. */
  function Performed<D>(h: Linked.Host<D>, data: seq<byte>, ins: seq<byte>, d: D): Effect<D> {
    if |ins| == 3 && IsPoolRef(ins[0]) then
      match Pool.LoadConstant(data, Word(ins, 1))
      case OutOfBounds => Stop
      case Loaded(v) => h.m.run([ins[0]] + v, d)
    else h.m.run(ins, d)
  }

  /** The machine of the optimizer's theorem over the pool `data`. */
  function Over<D>(h: Linked.Host<D>, data: seq<byte>): Semantics<D> {
    Semantics((ins, d) => Performed(h, data, ins, d), h.m.taken, h.m.pop, (n, d) => h.makeFunction(0, n, d))
  }

  /** There is no instruction at a that only the machine of `LinkedRuns` has. */
  predicate Plain(c: seq<byte>, a: nat) {
    a < |c| ==> c[a] != INS_SWITCH && !(INS_F2O < c[a] <= INS_F2O_15)
  }

  /** The two machines agree on code with absolute operands. */
  lemma StepIsMachine<D>(h: Linked.Host<D>, c: seq<byte>, data: seq<byte>, s: State<D>)
    requires Plain(c, s.pc)
    ensures Linked.Step(h, Linked.Unlinked(c, data), s) == Step(Over(h, data), c, s)
  {
    hide Pool.LoadConstant, Word;
    if Live(c, s) {
      var op, next := c[s.pc], s.pc + LengthAt(c, s.pc);
      if IsPoolRef(op) {
        var ins := c[s.pc..next];
        assert next == s.pc + 3 && |ins| == 3 && ins[0] == op;
        SameWord(c, s.pc, ins);
        assert Decode(c, s.pc) == Decoded(op, ins, 0, next);
      }
    }
  }

  lemma SameWord(c: seq<byte>, a: nat, ins: seq<byte>)
    requires a + 3 <= |c| && ins == c[a..a + 3]
    ensures Word(ins, 1) == Word(c, a + 1)
  {
  }

  ghost predicate PlainAfter<D>(m: Semantics<D>, c: seq<byte>, s: State<D>, k: nat) {
    Plain(c, Run(m, c, s, k).pc)
  }

  lemma {:induction false} RunIsMachine<D>(h: Linked.Host<D>, c: seq<byte>, data: seq<byte>, s: State<D>, n: nat)
    requires forall k :: 0 <= k < n ==> PlainAfter(Over(h, data), c, s, k)
    ensures Linked.Run(h, Linked.Unlinked(c, data), s, n) == Run(Over(h, data), c, s, n)
    decreases n
  {
    hide Linked.Step, Step, Plain, Over;
    if n > 0 {
      var m := Over(h, data);
      assert PlainAfter(m, c, s, 0);
      StepIsMachine(h, c, data, s);
      var t := Step(m, c, s);
      forall k | 0 <= k < n - 1
        ensures PlainAfter(m, c, t, k)
      {
        assert PlainAfter(m, c, s, k + 1);
      }
      RunIsMachine(h, c, data, t, n - 1);
    }
  }

  /** Every instruction that a run of p comes to is plain. */
  lemma OriginalIsPlain<D>(m: Semantics<D>, p: Program, s: State<D>, k: nat)
    requires p.Valid() && Within(p.Count() + 1, s)
    requires forall i {:trigger p.Op(i)} :: 0 <= i < p.Count() ==> p.Op(i) != INS_SWITCH
    ensures PlainAfter(m, p.code, Place(p.at, s), k)
  {
    hide Program.Valid, Run, NumberRun;
    OriginalRun(m, p, s, k);
    var t := NumberRun(m, p, s, k);
    if t.pc < p.Count() {
      IsListed(p, t.pc);
    }
    Ends(p);
  }

  lemma IsListed(p: Program, i: nat)
    requires p.Valid() && i < p.Count()
    ensures p.at[i] < |p.code| && p.code[p.at[i]] == p.Op(i) && !(INS_F2O < p.Op(i) <= INS_F2O_15)
  {
    assert p.Follows(i);
  }

  lemma Ends(p: Program)
    requires p.Valid()
    ensures p.at[p.Count()] == |p.code|
  {
  }

  /** The new offset of any instruction is the offset of a surviving one, or the end of the code. */
  lemma {:induction false} NewIsPlain(q: Program, d: seq<byte>, i: nat)
    requires q.Valid() && |q.code| < BUFFER_SIZE && Safe(q) && Compacted(q, d) && i <= q.Count()
    ensures Plain(d, New(q, i))
    decreases q.Count() - i
  {
    hide Program.Valid, Program.Laid, Safe, Emitted, LengthAt, Decode, NumberDecode, Removed, Deleted;
    if i < q.Count() {
      if Removed(q, i) {
        StaysAt(q, i);
        NewIsPlain(q, d, i + 1);
      } else {
        CompactedDecode(q, d, i);
        IsListed(q, i);
        NoSwitch(q, i);
      }
    }
  }

  lemma NoSwitch(q: Program, i: nat)
    requires q.Valid() && Safe(q) && i < q.Count()
    ensures q.Op(i) != INS_SWITCH
  {
  }

  lemma OptimizedIsPlain<D>(m: Semantics<D>, q: Program, d: seq<byte>, s: State<D>, k: nat)
    requires q.Valid() && |q.code| < BUFFER_SIZE && Safe(q) && Compacted(q, d) && Within(q.Count() + 1, s)
    ensures PlainAfter(m, d, Place(NewOffsets(q), s), k)
  {
    hide Program.Valid, Run, NumberRun, Safe, Compacted, New, Plain;
    var j := CompactedRun(m, q, d, s, k);
    NewIsPlain(q, d, NumberRun(m, q, s, j).pc);
  }

  // ---------- where instructions of the optimized code start ----------

  /** No jump leads behind the code, so the last instruction is not a deleted one. */
  lemma LastSurvives(q: Program)
    requires q.Valid() && q.Count() > 0 && Safe(q)
    ensures New(q, q.Count() - 1) < New(q, q.Count())
  {
    var i := q.Count() - 1;
    assert q.Follows(i) && q.Aims(i);
    assert !Removed(q, i);
  }

  lemma {:induction false} NewIsStart(u: Unit, q: Program, j: nat)
    requires u.Valid() && q.Valid() && |q.code| < BUFFER_SIZE && Safe(q) && Compacted(q, u.code) && j < q.Count()
    ensures Linked.Starts(u, New(q, j))
    decreases j
  {
    hide u.Valid, Program.Valid, Program.Laid, Safe, Emitted, LengthAt, Decode, NumberDecode, Removed, Deleted;
    LastSurvives(q);
    NewIsMonotone(q, j, q.Count() - 1);
    if j == 0 {
      FirstStarts(u, q);
    } else {
      var i := j - 1;
      NewIsStart(u, q, i);
      if Removed(q, i) {
        StaysAt(q, i);
      } else {
        CompactedDecode(q, u.code, i);
        SurvivorAdvances(q, u.code, i);
        NextStarts(u, New(q, i));
      }
    }
  }

  lemma FirstStarts(u: Unit, q: Program)
    requires u.Valid() && q.Valid() && 0 < |u.code|
    ensures New(q, 0) == 0 && Linked.Starts(u, 0)
  {
    assert u.at[0] == 0;
  }

  lemma SurvivorAdvances(q: Program, d: seq<byte>, i: nat)
    requires q.Valid() && |q.code| < BUFFER_SIZE && Safe(q) && Compacted(q, d) && i < q.Count() && !Removed(q, i)
    requires New(q, i) < |d|
    ensures New(q, i + 1) == New(q, i) + LengthAt(d, New(q, i))
  {
    hide Program.Valid, Safe, Compacted, LengthAt, New;
    CompactedDecode(q, d, i);
  }

  lemma NextStarts(u: Unit, a: nat)
    requires u.Valid() && a < |u.code| && Linked.Starts(u, a) && a + LengthAt(u.code, a) < |u.code|
    ensures Linked.Starts(u, a + LengthAt(u.code, a))
  {
    var i: nat :| i < u.Count() && i < |u.at| && u.at[i] == a;
    u.StartsAt(i);
    assert i + 1 < u.Count();
    assert u.at[i + 1] == a + LengthAt(u.code, a);
  }

  /** A state at instructions of the program is one at instructions of the optimized code. */
  lemma StartIsInside<D>(u: Unit, q: Program, s: State<D>)
    requires u.Valid() && q.Valid() && |q.code| < BUFFER_SIZE && Safe(q) && Compacted(q, u.code)
    requires Within(q.Count(), s)
    ensures Within(q.Count() + 1, s) && Linked.Inside(u, Place(NewOffsets(q), s))
  {
    hide u.Valid, Program.Valid, Safe, Compacted, Linked.Starts, New;
    NewIsStart(u, q, s.pc);
    forall k | 0 <= k < |s.frames|
      ensures Linked.Starts(u, New(q, s.frames[k]))
    {
      NewIsStart(u, q, s.frames[k]);
    }
    forall k | 0 <= k < |s.functions|
      ensures Linked.Starts(u, New(q, s.functions[k]))
    {
      NewIsStart(u, q, s.functions[k]);
    }
  }

  // ---------- optimized and linked ----------

  /**
    From any state at instructions, whatever the data, n steps of the linked image of optimized code
    correspond to k >= n steps of the code and the pool before optimization and linking, to the same
    state up to the layout of the code; both execute the same instructions on the same data but for INS_JMP.
    */
  lemma CompiledCodeRuns<D>(h: Linked.Host<D>, p: Program, threaded: seq<byte>, u: Unit, start: State<D>, n: nat)
    returns (k: nat, s: State<D>)
    requires p.Valid() && |p.code| < BUFFER_SIZE && ThreadedUpTo(p, threaded, p.Count())
    requires var q := After(p, threaded); q.Valid() ==> Safe(q) && Compacted(q, u.code)
    requires Linked.Closed(u) && Within(p.Count(), start)
    ensures n <= k && Within(p.Count() + 1, start) && Within(p.Count() + 1, s)
    ensures var q, pool := After(p, threaded), Pool.Contents(u.pool);
            && q.Valid()
            && Linked.Run(h, Linked.Image(u.Image()), Place(NewOffsets(q), start), n) == Place(NewOffsets(q), s)
            && Linked.Run(h, Linked.Unlinked(p.code, pool), Place(p.at, start), k) == Place(p.at, s)
            && Trace(Over(h, pool), p.code, Place(p.at, start), k)
            == Trace(Over(h, pool), u.code, Place(NewOffsets(q), start), n)
  {
    hide Program.Valid, Rewritten, Safe, Compacted, Run, Trace, Place, New, Over, Linked.Run, Linked.Inside, u.Valid,
      u.Image, Pool.Contents, Linked.Refers, PlainAfter;
    AfterIsValid(p, threaded);
    var q, pool := After(p, threaded), Pool.Contents(u.pool);
    var m := Over(h, pool);
    StartIsInside(u, q, start);
    var placed := Place(NewOffsets(q), start);
    Linked.ImageRuns(u, h, placed, n);
    forall i | 0 <= i < n
      ensures PlainAfter(m, u.code, placed, i)
    {
      OptimizedIsPlain(m, q, u.code, start, i);
    }
    RunIsMachine(h, u.code, pool, placed, n);
    k, s := OptimizedRuns(m, p, threaded, u.code, start, n);
    SameSwitches(p, threaded);
    forall i | 0 <= i < k
      ensures PlainAfter(m, p.code, Place(p.at, start), i)
    {
      OriginalIsPlain(m, p, start, i);
    }
    RunIsMachine(h, p.code, pool, Place(p.at, start), k);
  }

  lemma SameSwitches(p: Program, threaded: seq<byte>)
    requires p.Valid() && ThreadedUpTo(p, threaded, p.Count())
    requires var q := After(p, threaded); q.Valid() && Safe(q)
    ensures forall i {:trigger p.Op(i)} :: 0 <= i < p.Count() ==> p.Op(i) != INS_SWITCH
  {
    hide Program.Valid, ThreadedUpTo, Removed, Relocatable;
    AfterIsValid(p, threaded);
    var q := After(p, threaded);
    forall i {:trigger p.Op(i)} | 0 <= i < p.Count()
      ensures p.Op(i) != INS_SWITCH
    {
      assert q.Op(i) == p.Op(i);
    }
  }
}
