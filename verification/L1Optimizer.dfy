/** is_l1_optimize of il1_optimizer.c: jump threading and code compaction in place. */
module L1Optimizer {
  import opened Bytes
  import opened Isa
  import opened Program
  import opened Threading
  import opened Compaction
  import opened Scan
  import opened Chains
  import opened Wrappers

  class Optimizer {
    const code: array<byte>     // _istream_code_buffer
    var jumps: seq<OptRec>      // _opthead
    var recs: seq<CodeRec>      // _cdrhead

    constructor (buffer: array<byte>)
      requires buffer.Length == BUFFER_SIZE
      ensures code == buffer && jumps == [] && recs == []
    {
      code, jumps, recs := buffer, [], [];
    }

    /** is_l1_push_jump */
    method PushJump(offset: word, opt_offset: word, ins: byte, index: word)
      modifies this`jumps
      ensures jumps == old(jumps) + [OptRec(offset, opt_offset, ins, index)]
    {
      jumps := jumps + [OptRec(offset, opt_offset, ins, index)];
    }

    /** is_l1_push_coderec */
    method PushCodeRec(offset: word, rdc: word) returns (r: word)
      modifies this`recs
      ensures recs == old(recs) + [CodeRec(offset, rdc)] && r == rdc
    {
      recs := recs + [CodeRec(offset, rdc)];
      r := rdc;
    }

    /** is_l1_backpatch */
    method Backpatch(offset: word, opt_offset: word)
      requires forall r <- jumps :: r.opt_offset + 2 < code.Length
      modifies code
      ensures code[..] == Patch(old(code[..]), jumps, offset, opt_offset)
    {
      ghost var was := code[..];
      var k := 0;
      while k < |jumps|
        invariant k <= |jumps| && code[..] == Patch(was, jumps[..k], offset, opt_offset)
      {
        var r := jumps[k];
        assert jumps[..k + 1][..k] == jumps[..k];
        if r.index == offset {
          code[r.opt_offset] := r.ins;
          StoreWord(code, r.opt_offset + 1, opt_offset);
        }
        k := k + 1;
      }
      assert jumps[..k] == jumps;
    }

    /** is_l1_translate, with its 16-bit arithmetic. */
    method Translate(offset: word) returns (l: word)
      requires Increasing(recs)
      ensures l == Wrap16(offset - Reduction(recs, offset))
    {
      hide Wrap16;
      WrapFits(offset);
      l := offset;
      var rdc := 0;
      var k := 0;
      while k < |recs|
        invariant k <= |recs|
        invariant k > 0 && recs[k - 1].offset <= offset ==>
          rdc == Reduction(recs[..k], offset) && (k < |recs| ==> recs[k].offset <= offset)
        invariant k == 0 ==> rdc == 0
        invariant 0 < k && recs[0].offset <= offset ==> recs[k - 1].offset <= offset
        invariant recs == [] || recs[0].offset > offset ==> l == offset
        invariant k == |recs| > 0 && recs[k - 1].offset <= offset ==> l == Wrap16(offset - rdc)
      {
        var r := recs[k];
        assert recs[..k + 1][..k] == recs[..k];
        rdc := rdc + r.rdc;
        WrapAdd(r.offset - rdc, offset - r.offset);
        if k + 1 < |recs| {
          if r.offset <= offset && recs[k + 1].offset > offset {
            l := Wrap16(r.offset - rdc);
            l := Wrap16(l + (offset - r.offset));
            LaterRecordsIgnored(recs, k + 1, offset);
            return;
          }
        } else if r.offset <= offset {
          l := Wrap16(r.offset - rdc);
          l := Wrap16(l + (offset - r.offset));
        }
        k := k + 1;
      }
      if recs == [] || recs[0].offset > offset {
        LaterRecordsIgnored(recs, 0, offset);
      } else {
        assert recs[..k] == recs;
      }
    }

    /** Where pass 1 is, with the loop variable pc and, inside the inner loop, `index`. */
    ghost function PassState(pc: nat, index: Option<word>): PassOne
      reads code
    {
      PassOne(code[..], pc, index)
    }

    /**
      The loop_next_jump loop: where the chain entered at jump i ends, through operands partly rewritten
      already. It takes n of the steps of `PassOne`.
      */
    method FollowChain(pc: nat, size: nat, ghost p: Program, ghost i: nat) returns (index: word, ghost n: nat)
      requires code.Length == BUFFER_SIZE && size < BUFFER_SIZE
      requires p.Valid() && size == |p.code| && i < p.Count() && pc == p.at[i] && IsBranch(p.Op(i))
      requires ThreadedUpTo(p, code[..size], i)
      ensures index == p.at[p.Threaded(i)] && pc + 3 <= size
      ensures PassState(pc, None).Steps(size, n) == PassState(pc, Some(index)) && code[index] != INS_JMP
    {
      hide Program.Valid, Program.Laid, ThreadedUpTo, Program.ChainEnd, Word, PassOne.Steps;
      ghost var d := code[..size];
      OperandIn(p, d, code[..], i, i);
      ghost var t: nat := p.to[i];
      OperandIn(p, d, code[..], i, t);
      PassState(pc, None).NoStep(size);
      PassState(pc, None).NextStep(size, 0);
      index, n := Word(code[..], pc + 1), 1;
      while code[index] == INS_JMP
        invariant t < p.Count() && index == p.at[t] < size && code[index] == p.Op(t)
        invariant p.ChainEnd(t) == p.Threaded(i)
        invariant PassState(pc, None).Steps(size, n) == PassState(pc, Some(index))
        decreases if p.Op(t) == INS_JMP then p.rank[t] + 1 else 0
      {
        HopsOn(p, i, t);
        OperandIn(p, d, code[..], i, t);
        PassState(pc, None).NextStep(size, n);
        index, n := Word(code[..], index + 1), n + 1;
        t := if t < i then p.Threaded(t) else p.to[t];
        OperandIn(p, d, code[..], i, t);
      }
      p.EndOfChain(t);
    }

    /** Pass 1: every branch is redirected to the end of the INS_JMP chain it enters. */
    method ThreadJumps(size: nat, ghost p: Program)
      requires code.Length == BUFFER_SIZE && size < BUFFER_SIZE
      requires p.Valid() && size == |p.code| && code[..size] == p.code
      modifies code
      ensures ThreadedUpTo(p, code[..size], p.Count()) && code[size..] == old(code[size..])
      ensures exists n: nat :: old(PassState(0, None)).Steps(size, n) == PassState(size, None)
    {
      hide Program.Valid, ThreadedUpTo, LengthAt, WithWord, Word, PassOne.Steps, PassOne.Step, PassOne.Readable;
      NothingThreaded(p, code[..size]);
      var pc := 0;
      ghost var i: nat, n: nat := 0, 0;
      ghost var rest, start := code[size..], PassState(0, None);
      start.NoStep(size);
      while pc != size
        invariant i <= p.Count() && pc == p.at[i] <= size
        invariant ThreadedUpTo(p, code[..size], i) && code[size..] == rest
        invariant start.Steps(size, n) == PassState(pc, None)
        decreases size - pc
      {
        ghost var m;
        p.Increasing(i, p.Count());
        pc, m := ThreadTurn(pc, size, p, i);
        start.StepsCompose(size, n, m);
        n, i := n + m, i + 1;
      }
      p.Increasing(i, p.Count());
    }

    /** One turn of the loop of pass 1, in n of the steps of `PassOne`. */
    method ThreadTurn(pc: nat, size: nat, ghost p: Program, ghost i: nat) returns (pc': nat, ghost n: nat)
      requires code.Length == BUFFER_SIZE && size < BUFFER_SIZE
      requires p.Valid() && size == |p.code| && i < p.Count() && pc == p.at[i]
      requires ThreadedUpTo(p, code[..size], i)
      modifies code
      ensures pc < pc' == p.at[i + 1] <= size
      ensures ThreadedUpTo(p, code[..size], i + 1) && code[size..] == old(code[size..])
      ensures old(PassState(pc, None)).Steps(size, n) == PassState(pc', None)
    {
      hide Program.Valid, Program.Laid, ThreadedUpTo, LengthAt, WithWord, Word, PassOne.Steps;
      ghost var c, s := code[..], PassState(pc, None);
      p.Instruction(i);
      OperandIn(p, code[..size], c, i, i);
      if IsBranch(code[pc]) {
        var index;
        index, n := FollowChain(pc, size, p, i);
        s.NextStep(size, n);
        n := n + 1;
        Redirect(pc, index, size, p, i);
        pc' := pc + 3;
      } else {
        Apart(p, i, i);
        s.NoStep(size);
        s.NextStep(size, 0);
        n := 1;
        ThreadNone(p, code[..size], c, i);
        pc' := pc + LengthAt(code[..], pc);
      }
    }

    /** The store behind the inner loop. */
    method Redirect(pc: nat, index: word, size: nat, ghost p: Program, ghost i: nat)
      requires code.Length == BUFFER_SIZE && size < BUFFER_SIZE
      requires p.Valid() && size == |p.code| && i < p.Count() && IsBranch(p.Op(i))
      requires pc == p.at[i] && pc + 3 <= size && index == p.at[p.Threaded(i)] && ThreadedUpTo(p, code[..size], i)
      modifies code
      ensures code[..] == WithWord(old(code[..]), pc + 1, index)
      ensures ThreadedUpTo(p, code[..size], i + 1) && code[size..] == old(code[size..])
    {
      hide Program.Valid, Program.Laid, ThreadedUpTo, LengthAt, WithWord, Word;
      ghost var c, d := code[..], code[..size];
      ThreadOne(p, d, i);
      WithWordElsewhere(c, pc + 1, index, size, |c|);
      WithWordFront(c, pc + 1, index, size);
      StoreWord(code, pc + 1, index);
      assert code[..][..size] == code[..size] && c[..size] == d;
      assert code[..][size..|c|] == code[size..] && c[size..|c|] == old(code[size..]);
    }

    /** Where pass 2 is, with the loop variables pc and rdc. */
    ghost function State(pc: nat, rdc: nat): Scan
      reads this, code
    {
      Scan(code[..], pc, rdc, jumps, recs)
    }

    /** memcpy over the n bytes at pc and the code record for them. */
    method Delete(pc: nat, rdc: nat, n: word, m: nat) returns (rdc': nat)
      requires pc + n + m <= code.Length && pc + rdc < BUFFER_SIZE
      modifies this`recs, code
      ensures State(pc, rdc') == old(State(pc, rdc)).Cut(n, m)
    {
      ghost var s := State(pc, rdc).Cut(n, m);
      MoveDown(code, pc, pc + n, m);
      assert code[..] == s.d;
      var r := PushCodeRec(pc + rdc, n);
      rdc' := rdc + r;
      assert code[..] == s.d && recs == s.recs;
    }

    /** The jump case of the switch in pass 2. */
    method ScanJump(size: nat, pc: nat, rdc: nat) returns (pc': nat, rdc': nat)
      requires State(pc, rdc).Readable(size) && IsJump(code[pc])
      modifies this, code
      ensures State(pc', rdc') == old(State(pc, rdc)).Switch(size)
    {
      ghost var d := code[..];
      pc', rdc' := pc, rdc;
      var index := Word(code[..], pc + 1);
      if index == (pc + 3) + rdc {
        rdc' := Delete(pc, rdc, 3, (size - rdc) - pc);
      } else if index > pc {
        PushJump(pc + rdc, pc, code[pc], index);
        pc' := pc + 3;
      } else if index < pc {
        var l := Translate(index);
        StoreWord(code, pc + 1, l);
        pc' := pc + 3;
      }
    }

    /** The switch in pass 2; on an opcode that it does not list it does nothing. */
    method ScanOne(size: nat, pc: nat, rdc: nat) returns (pc': nat, rdc': nat)
      requires State(pc, rdc).Readable(size)
      modifies this, code
      ensures State(pc', rdc') == old(State(pc, rdc)).Switch(size)
    {
      hide Scan.Cut, Increasing;
      var opcode := code[pc];
      pc', rdc' := pc, rdc;
      if opcode == INS_LBL {
        var n := code[pc + 1] as int + 2;
        rdc' := Delete(pc, rdc, n, (size - (rdc + n)) - pc);
      } else if IsJump(opcode) {
        pc', rdc' := ScanJump(size, pc, rdc);
      } else if Listed(opcode) {
        pc' := pc + LengthAt(code[..], pc);
      }
    }

    /** One turn of the loop of pass 2. */
    method Turn(size: nat, pc: nat, rdc: nat) returns (pc': nat, rdc': nat)
      requires State(pc, rdc).Readable(size)
      modifies this, code
      ensures State(pc', rdc') == old(State(pc, rdc)).Turn(size)
    {
      hide Scan.Switch;
      State(pc, rdc).SwitchInBounds(size);
      pc', rdc' := ScanOne(size, pc, rdc);
      Backpatch(pc' + rdc', pc');
    }

    /** Pass 2: labels and jumps to the next instruction are deleted, the other jumps relocated. */
    method Compact(size: nat, ghost p: Program) returns (newSize: nat)
      requires code.Length == BUFFER_SIZE && size + 3 <= BUFFER_SIZE
      requires p.Valid() && size == |p.code| && code[..size] == p.code
      requires forall i :: 0 <= i < p.Count() ==> !Stalls(p, i)
      requires jumps == [] && recs == []
      modifies this, code
      ensures newSize == New(p, p.Count()) && Compacted(p, code[..newSize])
      ensures jumps == [] && recs == []
    {
      hide Scanned, Compacted, Stalls, Scan.Turn, Scan.Readable;
      var pc, rdc := 0, 0;
      ghost var i: nat, d := 0, code[..];
      ScanStarts(p, d);
      while pc != size - rdc
        invariant Reached(p, d, i) && State(pc, rdc) == Before(p, d, i)
        decreases size - (pc + rdc)
      {
        p.Increasing(i, p.Count());
        p.Increasing(i + 1, p.Count());
        assert p.Size(i) > 0;
        ghost var e := TurnAdvances(p, d, i);
        pc, rdc := Turn(size, pc, rdc);
        d, i := e, i + 1;
      }
      p.Increasing(i, p.Count());
      ScanEnds(p, d);
      newSize := size - rdc;
      jumps, recs := [], [];      // is_l1_clear_coderec, is_l1_clear_optrec
    }

    /** Passes 1 and 2 of is_l1_optimize, up to the size they leave. */
    method Optimize(size: nat, ghost p: Program) returns (newSize: nat, ghost threaded: seq<byte>)
      requires code.Length == BUFFER_SIZE && size + 3 <= BUFFER_SIZE
      requires p.Valid() && size == |p.code| && code[..size] == p.code
      requires forall d :: ThreadedUpTo(p, d, p.Count()) && After(p, d).Valid() ==>
                 forall i :: 0 <= i < p.Count() ==> !Stalls(After(p, d), i)
      requires jumps == [] && recs == []
      modifies this, code
      ensures ThreadedUpTo(p, threaded, p.Count()) && After(p, threaded).Valid()
      ensures newSize <= size && Compacted(After(p, threaded), code[..newSize])
      ensures jumps == [] && recs == []
    {
      hide Compacted;
      ThreadJumps(size, p);
      threaded := code[..size];
      AfterIsValid(p, threaded);
      newSize := Compact(size, After(p, threaded));
    }
  }

  lemma {:induction false} LaterRecordsIgnored(recs: seq<CodeRec>, k: nat, offset: nat)
    requires k <= |recs| && Increasing(recs)
    requires k < |recs| ==> recs[k].offset > offset
    ensures Reduction(recs, offset) == Reduction(recs[..k], offset)
  {
    var n := |recs|;
    if k < n {
      LaterRecordsIgnored(recs[..n - 1], k, offset);
      assert recs[..n - 1][..k] == recs[..k];
    } else {
      assert recs[..k] == recs;
    }
  }
}
