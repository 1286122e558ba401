/** Code as a row of instructions: `at` lists where they start, followed by the code size. */
module Layout {
  import opened Bytes
  import opened Isa

  /** The opcode of instruction i. */
  function OpAt(code: seq<byte>, at: seq<nat>, i: nat): byte {
    if i < |at| && at[i] < |code| then code[at[i]] else 0
  }

  /** Instruction i + 1 starts right behind instruction i. */
  ghost predicate Adjoins(code: seq<byte>, at: seq<nat>, i: nat)
    requires i + 1 < |at|
  {
    at[i] < |code| && at[i + 1] == at[i] + LengthAt(code, at[i]) <= |code|
  }

  predicate Spans(code: seq<byte>, at: seq<nat>) {
    |at| >= 1 && at[0] == 0 && at[|at| - 1] == |code|
  }

  ghost predicate LaidOut(code: seq<byte>, at: seq<nat>) {
    && Spans(code, at)
    && (forall i {:trigger OpAt(code, at, i)} {:trigger Adjoins(code, at, i)} ::
          0 <= i < |at| - 1 ==> Adjoins(code, at, i))
  }

  lemma {:induction false} StartsIncrease(code: seq<byte>, at: seq<nat>, i: nat, j: nat)
    requires LaidOut(code, at) && i <= j < |at|
    ensures at[i] <= at[j] <= |code| && (at[i] == at[j] <==> i == j)
    ensures i < j ==> at[i] < |code| && at[i] + LengthAt(code, at[i]) <= at[j]
    decreases j - i
  {
    if i < j {
      assert Adjoins(code, at, i) && Adjoins(code, at, j - 1);
      StartsIncrease(code, at, i, j - 1);
    } else if 0 < j {
      assert Adjoins(code, at, j - 1);
    }
  }
}
