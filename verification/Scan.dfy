/** Pass 2 of the L1 optimizer as a machine on values: what one turn of its loop does, and when the loop ends. */
module Scan {
  import opened Bytes
  import opened Isa
  import opened Program
  import opened Compaction

  /** The buffer, the address being written, the bytes deleted so far and the two record lists. */
  datatype Scan = Scan(d: seq<byte>, pc: nat, rdc: nat, jumps: seq<OptRec>, recs: seq<CodeRec>) {

    /** The instruction at pc lies inside the code, and the records are such as the scan itself makes. */
    ghost predicate Readable(size: nat) {
      && |d| == BUFFER_SIZE && size + 3 <= BUFFER_SIZE
      && pc < |d| && (pc + rdc) + LengthAt(d, pc) <= size
      && Increasing(recs) && forall r <- jumps :: r.opt_offset + 2 < |d|
    }

    /** Deleting n bytes at pc, with a memcpy of m bytes from behind them. */
    ghost function Cut(n: word, m: nat): Scan
      requires pc + n + m <= |d| && pc + rdc < BUFFER_SIZE
    {
      this.(d := Moved(d, pc, pc + n, m), rdc := rdc + n, recs := recs + [CodeRec(pc + rdc, n)])
    }

    /** The switch. */
    ghost function Switch(size: nat): Scan
      requires Readable(size)
    {
      var n := LengthAt(d, pc);
      if d[pc] == INS_LBL then Cut(n, (size - (rdc + n)) - pc)
      else if IsJump(d[pc]) then
        var index := Word(d, pc + 1);
        if index == (pc + 3) + rdc then Cut(3, (size - rdc) - pc)
        else if index > pc then this.(jumps := jumps + [OptRec(pc + rdc, pc, d[pc], index)], pc := pc + 3)
        else if index < pc then this.(d := WithWord(d, pc + 1, Wrap16(index - Reduction(recs, index))), pc := pc + 3)
        else this
      else if Listed(d[pc]) then this.(pc := pc + n)
      else this
    }

    lemma SwitchInBounds(size: nat)
      requires Readable(size)
      ensures var s := Switch(size); s.pc + s.rdc <= size && forall r <- s.jumps :: r.opt_offset + 2 < |s.d| == |d|
    {
      hide Moved, Reduction, Increasing;
    }

    /** One turn of the loop: the switch, then the jumps that wait for the address reached. */
    ghost function Turn(size: nat): Scan
      requires Readable(size)
    {
      SwitchInBounds(size);
      var s := Switch(size);
      s.(d := Patch(s.d, s.jumps, s.pc + s.rdc, s.pc))
    }

    predicate AtEnd(size: nat) {
      pc == size - rdc
    }

    /** The state after n turns, or where the loop ends before that. */
    ghost function Turns(size: nat, n: nat): Scan
      decreases n
    {
      if n == 0 || AtEnd(size) || !Readable(size) then this else Turn(size).Turns(size, n - 1)
    }

    /** The loop ends. */
    ghost predicate Ends(size: nat) {
      exists n: nat :: Turns(size, n).AtEnd(size)
    }

    /** A loop that is not at its end ends if and only if it does so after one more turn. */
    lemma OneTurn(size: nat)
      requires Readable(size) && !AtEnd(size)
      ensures Ends(size) <==> Turn(size).Ends(size)
    {
      if Ends(size) {
        var n: nat :| Turns(size, n).AtEnd(size);
        assert Turn(size).Turns(size, n - 1).AtEnd(size);
      }
      if Turn(size).Ends(size) {
        var n: nat :| Turn(size).Turns(size, n).AtEnd(size);
        assert Turns(size, n + 1).AtEnd(size);
      }
    }

    /** A turn that changes nothing repeats for ever. */
    lemma {:induction false} Repeats(size: nat, n: nat)
      requires Readable(size) && Turn(size) == this
      ensures Turns(size, n) == this
      decreases n
    {
      if n > 0 { Repeats(size, n - 1); }
    }

    /** On an opcode that the switch does not list the loop never ends either. */
    lemma {:induction false} UnlistedRepeats(size: nat, n: nat)
      requires Readable(size) && !AtEnd(size) && !Listed(d[pc]) && forall r <- jumps :: r.opt_offset + 2 < pc
      ensures !Turns(size, n).AtEnd(size)
      decreases n
    {
      if n > 0 {
        var e := Patch(d, jumps, pc + rdc, pc);
        PatchBelow(d, jumps, pc + rdc, pc, pc);
        assert e[pc] == e[pc..][0] == d[pc..][0] == d[pc];
        this.(d := e).UnlistedRepeats(size, n - 1);
      }
    }
  }

  lemma {:induction false} PatchBelow(d: seq<byte>, recs: seq<OptRec>, offset: nat, v: word, lo: nat)
    requires lo <= |d| && forall r <- recs :: r.opt_offset + 2 < lo
    ensures Patch(d, recs, offset, v)[lo..] == d[lo..]
  {
    if recs != [] {
      PatchBelow(d, recs[..|recs| - 1], offset, v, lo);
    }
  }

  /** The scan of program p in front of instruction i, with d in the buffer. */
  ghost function Before(p: Program, d: seq<byte>, i: nat): Scan
    requires p.Valid() && |p.code| < BUFFER_SIZE && i <= p.Count()
  {
    Scan(d, New(p, i), Deleted(p, i), Queued(p, i), Recs(p, i))
  }

  /** d holds p, of a size the code buffer has room for, with i instructions scanned. */
  ghost predicate Reached(p: Program, d: seq<byte>, i: nat) {
    && p.Valid() && |p.code| + 3 <= BUFFER_SIZE == |d| && i <= p.Count()
    && Scanned(p, d, i)
  }

  lemma ReachedIsReadable(p: Program, d: seq<byte>, i: nat)
    requires Reached(p, d, i) && i < p.Count()
    ensures Before(p, d, i).Readable(|p.code|) && !Before(p, d, i).AtEnd(|p.code|)
    ensures forall r <- Queued(p, i) :: r.opt_offset + 2 < New(p, i)
  {
    hide Scanned;
    ReadsInstruction(p, d, i);
    RecsAreIncreasing(p, i);
    QueuedBelow(p, i);
    p.Increasing(i + 1, p.Count());
  }

  // ---------- turns that advance ----------

  /** Deleting instruction i with a memcpy that moves at least the rest of the code. */
  lemma CutAdvances(p: Program, d: seq<byte>, i: nat, n: word, m: nat)
    requires Reached(p, d, i) && i < p.Count() && Removed(p, i) && n == p.Size(i)
    requires |p.code| - p.at[i + 1] <= m && New(p, i) + n + m <= |d|
    ensures New(p, i) + Deleted(p, i) < BUFFER_SIZE
    ensures var e := Before(p, d, i).Cut(n, m).d; |e| == |d| && Advanced(p, e, i)
    ensures Before(p, d, i).Cut(n, m) == Before(p, Before(p, d, i).Cut(n, m).d, i + 1)
  {
    hide Scanned, Advanced;
    p.Increasing(i, p.Count());
    RemoveStep(p, d, i, m);
  }

  /** The switch deals with one instruction, unless that is a jump that stalls. */
  lemma SwitchAdvances(p: Program, d: seq<byte>, i: nat) returns (e: seq<byte>)
    requires Reached(p, d, i) && i < p.Count() && !Stalls(p, i)
    ensures Before(p, d, i).Readable(|p.code|) && |e| == |d|
    ensures Before(p, d, i).Switch(|p.code|) == Before(p, e, i + 1) && Advanced(p, e, i)
  {
    hide Scanned, Advanced, Reduction, Moved, WithWord, Scan.Cut, Program.Valid, Program.Laid, Increasing;
    p.Instruction(i);
    var s, size := Before(p, d, i), |p.code|;
    ReachedIsReadable(p, d, i);
    ReadsInstruction(p, d, i);
    p.Increasing(i + 1, p.Count());
    e := s.Switch(size).d;
    if Removed(p, i) {
      var n := p.Size(i);
      CutAdvances(p, d, i, n, if IsJump(p.Op(i)) then (size - s.rdc) - s.pc else (size - (s.rdc + n)) - s.pc);
    } else if IsJump(p.Op(i)) && !Deferred(p, i) {
      RelocateStep(p, d, i);
      ReductionAt(p, p.to[i], i);
    } else {
      KeepStep(p, d, i);
      assert p.Follows(i);
    }
  }

  /** A turn scans one instruction, unless that is a jump that stalls. */
  lemma TurnAdvances(p: Program, d: seq<byte>, i: nat) returns (e: seq<byte>)
    requires Reached(p, d, i) && i < p.Count() && !Stalls(p, i)
    ensures Before(p, d, i).Readable(|p.code|)
    ensures Before(p, d, i).Turn(|p.code|) == Before(p, e, i + 1) && Reached(p, e, i + 1)
  {
    hide Scanned, Advanced;
    var f := SwitchAdvances(p, d, i);
    p.Increasing(i + 1, p.Count());
    e := BackpatchStep(p, f, i);
  }

  // ---------- turns that do not ----------

  /** Looking for jumps to instruction i once more finds them settled. */
  lemma {:induction false} PatchedAlready(p: Program, d: seq<byte>, k: nat, i: nat)
    requires Reached(p, d, i) && k <= i
    ensures forall r <- Queued(p, k) :: r.opt_offset + 2 < |d|
    ensures Patch(d, Queued(p, k), p.at[i], New(p, i)) == d
  {
    if k > 0 {
      var m := k - 1;
      PatchedAlready(p, d, m, i);
      PatchUnfolds(p, d, m, i);
      SettledAlready(p, d, m, i);
    }
  }

  lemma SettledAlready(p: Program, d: seq<byte>, m: nat, i: nat)
    requires Reached(p, d, i) && m < i
    ensures PatchOne(p, d, m, i) == d
  {
    hide Program.Valid, Program.Laid, LengthAt, Reduction, Queued, Recs;
    p.Instruction(m);
    assert Placed(p, d, m, i);
    if Deferred(p, m) && p.at[p.to[m]] == p.at[i] {
      SameStart(p, p.to[m], i);
      AlreadyThere(d, New(p, m), p.Op(m), New(p, i));
    }
  }

  lemma AlreadyThere(d: seq<byte>, a: nat, op: byte, w: word)
    requires a + 2 < |d| && d[a] == op && Word(d, a + 1) == w
    ensures WithWord(d[a := op], a + 1, w) == d
  {
    assert w / 0x100 == d[a + 1] && w % 0x100 == d[a + 2];
  }

  /** The turn of a jump that stalls changes neither the buffer nor the address nor the records. */
  lemma StalledTurn(p: Program, d: seq<byte>, i: nat)
    requires Reached(p, d, i) && i < p.Count() && Stalls(p, i)
    ensures Before(p, d, i).Readable(|p.code|)
    ensures Before(p, d, i).Turn(|p.code|) == Before(p, d, i)
  {
    hide Scanned, Reduction, Moved, WithWord, Patch, Scan.Cut, Program.Valid, Program.Laid, Recs, Queued;
    ReachedIsReadable(p, d, i);
    ReadsInstruction(p, d, i);
    PatchedAlready(p, d, i, i);
  }

  // ---------- when the loop ends ----------

  lemma {:induction false} EndsFrom(p: Program, d: seq<byte>, i: nat)
    requires Reached(p, d, i)
    ensures Before(p, d, i).Ends(|p.code|) <==> forall j :: i <= j < p.Count() ==> !Stalls(p, j)
    decreases p.Count() - i
  {
    hide Scanned, Stalls, Scan.Turn, Scan.Readable;
    var s, size := Before(p, d, i), |p.code|;
    if i == p.Count() {
      assert s.Turns(size, 0).AtEnd(size);
    } else {
      ReachedIsReadable(p, d, i);
      if Stalls(p, i) {
        StalledTurn(p, d, i);
        forall n: nat
          ensures !s.Turns(size, n).AtEnd(size)
        {
          s.Repeats(size, n);
        }
      } else {
        var e := TurnAdvances(p, d, i);
        s.OneTurn(size);
        EndsFrom(p, e, i + 1);
      }
    }
  }

  /** The loop over the code of p ends if and only if no jump of p stalls. */
  lemma EndsExactly(p: Program, d: seq<byte>)
    requires p.Valid() && |p.code| + 3 <= BUFFER_SIZE == |d| && d[..|p.code|] == p.code
    ensures Scan(d, 0, 0, [], []).Ends(|p.code|) <==> forall i :: 0 <= i < p.Count() ==> !Stalls(p, i)
  {
    ScanStarts(p, d);
    EndsFrom(p, d, 0);
  }

  // ---------- what the loop leaves ----------

  /** No turn ever leaves the code: every state of the loop is one in front of some instruction. */
  lemma {:induction false} TurnsReach(p: Program, d: seq<byte>, i: nat, n: nat) returns (e: seq<byte>, j: nat)
    requires Reached(p, d, i)
    ensures Reached(p, e, j) && Before(p, d, i).Turns(|p.code|, n) == Before(p, e, j)
    ensures Before(p, e, j).AtEnd(|p.code|) <==> j == p.Count()
    decreases n
  {
    hide Scanned, Stalls, Scan.Turn, Scan.Readable;
    e, j := d, i;
    if i < p.Count() {
      ReachedIsReadable(p, d, i);
      if n > 0 {
        if Stalls(p, i) {
          StalledTurn(p, d, i);
          e, j := TurnsReach(p, d, i, n - 1);
        } else {
          var f := TurnAdvances(p, d, i);
          e, j := TurnsReach(p, f, i + 1, n - 1);
        }
      }
    }
  }

  /** In d, jump i sits at its new offset and leads to the new offset of its target. */
  ghost predicate Leads(p: Program, d: seq<byte>, i: nat)
    requires p.Valid() && i < p.Count() && IsJump(p.Op(i))
  {
    var a := New(p, i);
    a + 2 < |d| && d[a] == p.Op(i) && Word(d, a + 1) == New(p, p.to[i])
  }

  /** Where the loop ends, a jump leads right if and only if it is one that pass 2 gets right. */
  lemma JumpLeads(p: Program, d: seq<byte>, i: nat)
    requires p.Valid() && Reached(p, d, p.Count()) && forall j :: 0 <= j < p.Count() ==> !Stalls(p, j)
    requires i < p.Count() && IsJump(p.Op(i)) && !Removed(p, i)
    ensures Leads(p, d, i) <==> RelocatedRight(p, i)
  {
    assert Placed(p, d, i, p.Count());
    NewIsMonotone(p, i, p.Count());
    RelocatedIsExact(p, i);
    RightIsRelocatable(p, i);
  }

  /** All surviving jumps of p lead right in d. */
  ghost predicate AllLead(p: Program, d: seq<byte>)
    requires p.Valid()
  {
    forall i {:trigger Removed(p, i)} :: 0 <= i < p.Count() && IsJump(p.Op(i)) && !Removed(p, i) ==> Leads(p, d, i)
  }

  ghost predicate AllRight(p: Program)
    requires p.Valid()
  {
    forall i {:trigger Removed(p, i)} ::
      0 <= i < p.Count() && IsJump(p.Op(i)) && !Removed(p, i) ==> RelocatedRight(p, i)
  }

  /** The loop ends with every surviving jump leading right if and only if pass 2 gets every one right. */
  lemma LeadsExactly(p: Program, d: seq<byte>)
    requires p.Valid() && |p.code| + 3 <= BUFFER_SIZE == |d| && d[..|p.code|] == p.code
    ensures (exists n: nat :: var s := Scan(d, 0, 0, [], []).Turns(|p.code|, n); s.AtEnd(|p.code|) && AllLead(p, s.d))
            <==> AllRight(p)
  {
    hide Scanned, Stalls, RelocatedRight, Leads, Scan.Turns, Scan.AtEnd;
    var start, size := Scan(d, 0, 0, [], []), |p.code|;
    ScanStarts(p, d);
    EndsExactly(p, d);
    forall n: nat | start.Turns(size, n).AtEnd(size)
      ensures AllLead(p, start.Turns(size, n).d) <==> AllRight(p)
    {
      EndIsRight(p, d, n);
    }
    if AllRight(p) {
      forall i | 0 <= i < p.Count()
        ensures !Stalls(p, i)
      {
        RightNeverStalls(p, i);
      }
      var n: nat :| start.Turns(size, n).AtEnd(size);
      assert AllLead(p, start.Turns(size, n).d);
    }
  }

  lemma RightNeverStalls(p: Program, i: nat)
    requires p.Valid() && i < p.Count() && AllRight(p)
    ensures !Stalls(p, i)
  {
    if IsJump(p.Op(i)) && !Removed(p, i) { RightIsRelocatable(p, i); }
  }

  lemma EndIsRight(p: Program, d: seq<byte>, n: nat)
    requires p.Valid() && |p.code| + 3 <= BUFFER_SIZE == |d| && d[..|p.code|] == p.code
    requires Scan(d, 0, 0, [], []).Turns(|p.code|, n).AtEnd(|p.code|)
    ensures AllLead(p, Scan(d, 0, 0, [], []).Turns(|p.code|, n).d) <==> AllRight(p)
  {
    hide Scanned, Stalls, RelocatedRight, Leads;
    ScanStarts(p, d);
    EndsExactly(p, d);
    var e, j := TurnsReach(p, d, 0, n);
    forall i | 0 <= i < p.Count() && IsJump(p.Op(i)) && !Removed(p, i)
      ensures Leads(p, e, i) <==> RelocatedRight(p, i)
    {
      JumpLeads(p, e, i);
    }
  }

  // ---------- one program of each kind ----------

  /** JMP, an instruction of n bytes, a conditional jump back to that instruction, RET; JMP goes to its successor. */
  ghost predicate Loops(p: Program, n: nat) {
    && p.at == [0, 3, 3 + n, 6 + n, 7 + n] && p.to == [1, 0, 1, 0] && p.rank == [0, 0, 0, 0] && |p.code| == 7 + n
    && p.code[0] == INS_JMP && Word(p.code, 1) == 3
    && n >= 1 && Listed(p.code[3]) && !IsJump(p.code[3]) && p.code[3] != INS_LBL && LengthAt(p.code, 3) == n
    && p.code[3 + n] == INS_JFALSE && Word(p.code, 4 + n) == 3 && p.code[6 + n] == INS_RET
  }

  lemma LoopIsValid(p: Program, n: nat)
    requires Loops(p, n)
    ensures p.Valid() && p.Count() == 4
    ensures p.Op(0) == INS_JMP && !IsJump(p.Op(1)) && p.Op(1) != INS_LBL && p.Op(2) == INS_JFALSE && p.Op(3) == INS_RET
  {
    hide LengthAt, Word;
    assert LengthAt(p.code, 0) == 3 && LengthAt(p.code, 3 + n) == 3 && LengthAt(p.code, 6 + n) == 1 by {
      LengthOf(p.code, 0);
      LengthOf(p.code, 3 + n);
      LengthOf(p.code, 6 + n);
    }
    assert p.Follows(0) && p.Follows(1) && p.Follows(2) && p.Follows(3);
    assert p.Aims(0) && p.Aims(1) && p.Aims(2) && p.Aims(3);
  }

  lemma LengthOf(c: seq<byte>, q: nat)
    requires q < |c|
    ensures c[q] == INS_JMP || c[q] == INS_JFALSE ==> LengthAt(c, q) == 3
    ensures c[q] == INS_RET ==> LengthAt(c, q) == 1
  {
  }

  /** JMP is deleted, so the conditional jump comes to lie at n. */
  lemma LoopIsScanned(p: Program, n: nat)
    requires Loops(p, n)
    ensures p.Valid() && p.Count() == 4 && p.Op(2) == INS_JFALSE && IsJump(p.Op(2)) && p.to[2] == 1
    ensures Removed(p, 0) && !Removed(p, 2) && New(p, 1) == 0 && New(p, 2) == n
    ensures forall i :: 0 <= i < p.Count() && Stalls(p, i) ==> i == 2
    ensures Stalls(p, 2) <==> n == 3
    ensures RelocatedRight(p, 2) <==> n > 3
  {
    LoopIsValid(p, n);
    hide Program.Valid, Program.Laid, LengthAt;
    p.Instruction(0);
    p.Instruction(1);
    assert !Removed(p, 1);
    assert Deleted(p, 0) == 0 && Deleted(p, 1) == 3 && Deleted(p, 2) == 3;
    forall i | 0 <= i < p.Count() && Stalls(p, i)
      ensures i == 2
    {
      assert i == 0 || i == 1 || i == 2 || i == 3;
    }
  }

  /** With a constant in the loop the conditional jump lands on its own target. */
  lemma StallingProgram(d: seq<byte>) returns (p: Program)
    requires |d| == BUFFER_SIZE
    ensures p.code == [INS_JMP, 0, 3, INS_OBJCONST, 0, 0, INS_JFALSE, 0, 3, INS_RET] && p.Valid()
    ensures p.Count() == 4 && IsJump(p.Op(2)) && Removed(p, 0) && Stalls(p, 2) && !RelocatedRight(p, 2)
    ensures d[..10] == p.code ==> !Scan(d, 0, 0, [], []).Ends(10)
  {
    hide Program.Valid, Program.Laid, Stalls, RelocatedRight, Removed;
    p := Program([INS_JMP, 0, 3, INS_OBJCONST, 0, 0, INS_JFALSE, 0, 3, INS_RET],
                 [0, 3, 6, 9, 10], [1, 0, 1, 0], [0, 0, 0, 0]);
    LoopIsScanned(p, 3);
    if d[..10] == p.code {
      EndsExactly(p, d);
    }
  }

  /** With a shorter instruction the target lies behind the new address and keeps its old address. */
  lemma MisledProgram(d: seq<byte>) returns (p: Program)
    requires |d| == BUFFER_SIZE
    ensures p.code == [INS_JMP, 0, 3, INS_OBJPUSH, 0, INS_JFALSE, 0, 3, INS_RET] && p.Valid()
    ensures p.Count() == 4 && IsJump(p.Op(2)) && !Removed(p, 2) && !RelocatedRight(p, 2)
    ensures forall i :: 0 <= i < p.Count() ==> !Stalls(p, i)
    ensures New(p, 2) == 2 && p.to[2] == 1 && New(p, 1) == 0
    ensures d[..9] == p.code ==> exists n: nat :: var s := Scan(d, 0, 0, [], []).Turns(9, n);
              s.AtEnd(9) && 4 < |s.d| && s.d[2] == INS_JFALSE && Word(s.d, 3) == 3
  {
    hide Program.Valid, Program.Laid, Stalls, RelocatedRight, Removed, New, Scan.Turns, LengthAt;
    p := Program([INS_JMP, 0, 3, INS_OBJPUSH, 0, INS_JFALSE, 0, 3, INS_RET],
                 [0, 3, 5, 8, 9], [1, 0, 1, 0], [0, 0, 0, 0]);
    MisledCode(p);
    LoopIsScanned(p, 2);
    if d[..9] == p.code {
      KeepsOldTarget(p, d);
    }
  }

  lemma MisledCode(p: Program)
    requires p == Program([INS_JMP, 0, 3, INS_OBJPUSH, 0, INS_JFALSE, 0, 3, INS_RET],
                          [0, 3, 5, 8, 9], [1, 0, 1, 0], [0, 0, 0, 0])
    ensures Loops(p, 2) && |p.code| == 9
  {
  }

  lemma KeepsOldTarget(p: Program, d: seq<byte>)
    requires Loops(p, 2) && |d| == BUFFER_SIZE && d[..|p.code|] == p.code
    ensures exists n: nat :: var s := Scan(d, 0, 0, [], []).Turns(|p.code|, n);
              s.AtEnd(|p.code|) && 4 < |s.d| && s.d[2] == INS_JFALSE && Word(s.d, 3) == 3
  {
    hide Program.Valid, Program.Laid, Stalls, RelocatedRight, Scanned, Removed, New, Scan.Turns, Scan.Readable;
    var start, size := Scan(d, 0, 0, [], []), |p.code|;
    LoopIsScanned(p, 2);
    EndsExactly(p, d);
    var n: nat :| start.Turns(size, n).AtEnd(size);
    EndState(p, d, n);
  }

  lemma EndState(p: Program, d: seq<byte>, n: nat)
    requires Loops(p, 2) && |d| == BUFFER_SIZE && d[..|p.code|] == p.code
    requires Scan(d, 0, 0, [], []).Turns(|p.code|, n).AtEnd(|p.code|)
    ensures var s := Scan(d, 0, 0, [], []).Turns(|p.code|, n);
            4 < |s.d| && s.d[2] == INS_JFALSE && Word(s.d, 3) == 3
  {
    hide Program.Valid, Program.Laid, Stalls, RelocatedRight, Removed, Scan.Turns, Scan.Readable, Placed, Scanned, Word;
    LoopIsScanned(p, 2);
    ScanStarts(p, d);
    StartState(p, d);
    var e, j := TurnsReach(p, d, 0, n);
    LoopPlaced(p, e);
  }

  lemma StartState(p: Program, d: seq<byte>)
    requires p.Valid() && |p.code| + 3 <= BUFFER_SIZE == |d|
    ensures Before(p, d, 0) == Scan(d, 0, 0, [], [])
  {
  }

  lemma LoopPlaced(p: Program, e: seq<byte>)
    requires Loops(p, 2) && p.Valid() && |p.code| < BUFFER_SIZE == |e| && p.Count() == 4
    requires p.Op(2) == INS_JFALSE && p.to[2] == 1 && !Removed(p, 2) && New(p, 2) == 2 && Scanned(p, e, 4)
    ensures e[2] == INS_JFALSE && Word(e, 3) == 3
  {
    hide Program.Valid, Program.Laid, Removed, Word;
    p.Instruction(2);
    assert Placed(p, e, 2, 4);
  }
}
