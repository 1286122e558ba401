/** Code together with the facts that make it a program: instruction starts and jump targets. */
module Program {
  import opened Bytes
  import opened Isa
  import opened Layout

  /**
    `at` lists the instruction starts followed by the code size; `to[i]` is the number of the
    instruction that jump i targets; `rank` decreases along every INS_JMP that targets an
    INS_JMP, so it witnesses that no cycle consists of INS_JMP alone.
    */
  datatype Program = Program(code: seq<byte>, at: seq<nat>, to: seq<nat>, rank: seq<nat>) {

    function Count(): nat
      requires |at| >= 1
    {
      |at| - 1
    }

    /** The opcode of instruction i. */
    function Op(i: nat): byte {
      OpAt(code, at, i)
    }

    /** Instruction i is one the optimizer knows and the next one starts right behind it. */
    ghost predicate Follows(i: nat)
      requires i + 1 < |at|
    {
      Adjoins(code, at, i) && Listed(Op(i))
    }

    ghost predicate Laid() {
      && Spans(code, at) && |to| == |rank| == |at| - 1
      && (forall i {:trigger Op(i)} {:trigger Follows(i)} :: 0 <= i < Count() ==> Follows(i))
    }

    /** Encoded length of instruction i. */
    ghost function Size(i: nat): (n: nat)
      requires Laid() && i < Count()
      ensures at[i] < at[i] + n == at[i + 1] <= |code| && n == LengthAt(code, at[i])
    {
      assert Follows(i);
      at[i + 1] - at[i]
    }

    lemma Increasing(i: nat, j: nat)
      requires Laid() && i <= j < |at|
      ensures at[i] <= at[j] && (at[i] == at[j] <==> i == j)
      ensures at[j] <= |code|
    {
      assert forall k :: 0 <= k < Count() && Follows(k) ==> Adjoins(code, at, k);
      StartsIncrease(code, at, i, j);
    }

    /** If instruction i is a jump, its operand is the start of instruction to[i]. */
    ghost predicate Aims(i: nat)
      requires Laid() && i < Count()
    {
      IsJump(Op(i)) ==> to[i] < Count() && Word(code, at[i] + 1) == at[to[i]]
    }

    /** Valid but for cycles of INS_JMP. */
    ghost predicate Aimed() {
      && Laid()
      && (forall i {:trigger Op(i)} {:trigger Aims(i)} :: 0 <= i < Count() ==> Aims(i))
    }

    ghost predicate Valid() {
      && Aimed()
      && (forall i {:trigger Op(to[i])} :: 0 <= i < Count() && Op(i) == INS_JMP && Op(to[i]) == INS_JMP ==>
            rank[to[i]] < rank[i])
    }

    /** What validity says about one instruction. */
    lemma Instruction(i: nat)
      requires Valid() && i < Count()
      ensures Laid() && |to| == |rank| == Count() && at[i] < at[i + 1] <= |code| && at[|at| - 1] == |code|
      ensures at[i + 1] == at[i] + Size(i) && at[i] + LengthAt(code, at[i]) == at[i + 1] && code[at[i]] == Op(i)
      ensures IsJump(Op(i)) ==> Size(i) == 3 && to[i] < Count() && Word(code, at[i] + 1) == at[to[i]]
    {
      assert Follows(i) && Aims(i);
      Increasing(i + 1, Count());
    }

    /** The instruction at the end of the INS_JMP chain that starts at instruction t. */
    ghost function ChainEnd(t: nat): (e: nat)
      requires Valid() && t < Count()
      ensures e < Count() && Op(e) != INS_JMP
      decreases if Op(t) == INS_JMP then rank[t] + 1 else 0
    {
      if Op(t) == INS_JMP then ChainEnd(to[t]) else t
    }

    lemma EndOfChain(t: nat)
      requires Valid() && t < Count() && Op(t) != INS_JMP
      ensures ChainEnd(t) == t
    {
    }

    /** Where jump i leads after threading. */
    ghost function Threaded(i: nat): (e: nat)
      requires Valid() && i < Count() && IsJump(Op(i))
      ensures e < Count()
    {
      if IsBranch(Op(i)) then ChainEnd(to[i]) else to[i]
    }
  }
}
