/** When pass 1 of the L1 optimizer (il1_optimizer.c) ends, for programs whose INS_JMP may form cycles. */
module Chains {
  import opened Bytes
  import opened Isa
  import opened Program
  import opened Threading
  import opened Wrappers

  // ---------- chains of instructions ----------

  /** The instruction n steps along the targets from t, or the first one before that which is no INS_JMP. */
  ghost function Walk(p: Program, t: nat, n: nat): (e: nat)
    requires p.Aimed() && t < p.Count()
    ensures e < p.Count()
    decreases n
  {
    if n == 0 || p.Op(t) != INS_JMP then t
    else
      assert p.Aims(t);
      Walk(p, p.to[t], n - 1)
  }

  /** Some number of steps from t leads to an instruction that is no INS_JMP. */
  ghost predicate Leaves(p: Program, t: nat)
    requires p.Aimed() && t < p.Count()
  {
    exists n: nat :: p.Op(Walk(p, t, n)) != INS_JMP
  }

  lemma LeavesNext(p: Program, t: nat)
    requires p.Aimed() && t < p.Count() && p.Op(t) == INS_JMP
    ensures p.to[t] < p.Count() && (Leaves(p, t) <==> Leaves(p, p.to[t]))
  {
    assert p.Aims(t);
    if Leaves(p, t) {
      var n: nat :| p.Op(Walk(p, t, n)) != INS_JMP;
      assert p.Op(Walk(p, p.to[t], n - 1)) != INS_JMP;
    }
    if Leaves(p, p.to[t]) {
      var n: nat :| p.Op(Walk(p, p.to[t], n)) != INS_JMP;
      assert p.Op(Walk(p, t, n + 1)) != INS_JMP;
    }
  }

  /** The smallest number of steps, given one that suffices. */
  ghost function Fewest(p: Program, t: nat, n: nat): (k: nat)
    requires p.Aimed() && t < p.Count() && p.Op(Walk(p, t, n)) != INS_JMP
    ensures p.Op(Walk(p, t, k)) != INS_JMP && forall m: nat :: m < k ==> p.Op(Walk(p, t, m)) == INS_JMP
    decreases n
  {
    if m: nat :| m < n && p.Op(Walk(p, t, m)) != INS_JMP then Fewest(p, t, m) else n
  }

  ghost function Steps(p: Program, t: nat): (k: nat)
    requires p.Aimed() && t < p.Count() && Leaves(p, t)
    ensures p.Op(Walk(p, t, k)) != INS_JMP && forall m: nat :: m < k ==> p.Op(Walk(p, t, m)) == INS_JMP
  {
    var n: nat :| p.Op(Walk(p, t, n)) != INS_JMP;
    Fewest(p, t, n)
  }

  lemma StepsFall(p: Program, t: nat)
    requires p.Aimed() && t < p.Count() && p.Op(t) == INS_JMP && Leaves(p, t)
    ensures p.to[t] < p.Count() && Leaves(p, p.to[t]) && Steps(p, p.to[t]) < Steps(p, t)
  {
    LeavesNext(p, t);
    var n := Steps(p, t);
    assert Walk(p, t, n) == Walk(p, p.to[t], n - 1);
  }

  ghost predicate AllLeave(p: Program)
    requires p.Aimed()
  {
    forall t :: 0 <= t < p.Count() ==> Leaves(p, t)
  }

  /** Ranks matter to nothing but the last clause of validity. */
  lemma OtherRanks(p: Program, r: seq<nat>)
    requires p.Aimed() && |r| == p.Count()
    ensures p.(rank := r).Aimed()
  {
    var q := p.(rank := r);
    assert forall i :: 0 <= i < p.Count() && p.Follows(i) ==> q.Follows(i);
    assert forall i :: 0 <= i < p.Count() && p.Aims(i) ==> q.Aims(i);
  }

  lemma {:induction false} RankedLeaves(p: Program, r: seq<nat>, t: nat)
    requires p.Aimed() && p.(rank := r).Valid() && t < p.Count()
    ensures Leaves(p, t)
    decreases if p.Op(t) == INS_JMP then r[t] + 1 else 0
  {
    if p.Op(t) == INS_JMP {
      LeavesNext(p, t);
      var q := p.(rank := r);
      assert q.Op(p.to[t]) == INS_JMP && q.Op(t) == INS_JMP ==> r[p.to[t]] < r[t];
      RankedLeaves(p, r, p.to[t]);
    } else {
      assert p.Op(Walk(p, t, 0)) != INS_JMP;
    }
  }

  /** A program is valid for some ranks if and only if no chain of it goes round in a cycle. */
  lemma RanksExist(p: Program)
    requires p.Aimed()
    ensures (exists r: seq<nat> :: p.(rank := r).Valid()) <==> AllLeave(p)
  {
    hide Leaves, Steps, Walk;
    if r: seq<nat> :| p.(rank := r).Valid() {
      forall t | 0 <= t < p.Count()
        ensures Leaves(p, t)
      {
        RankedLeaves(p, r, t);
      }
    }
    if AllLeave(p) {
      var r := StepRanks(p);
    }
  }

  lemma StepRanks(p: Program) returns (r: seq<nat>)
    requires p.Aimed() && AllLeave(p)
    ensures p.(rank := r).Valid()
  {
    r := seq(p.Count(), t requires 0 <= t < p.Count() => Steps(p, t));
    OtherRanks(p, r);
    forall i {:trigger p.Op(p.to[i])} | 0 <= i < p.Count() && p.Op(i) == INS_JMP && p.Op(p.to[i]) == INS_JMP
      ensures r[p.to[i]] < r[i]
    {
      StepsFall(p, i);
    }
  }

  // ---------- the loop on bytes ----------

  /** `index` after n turns of the loop. */
  ghost function Hop(d: seq<byte>, index: nat, n: nat): nat
    decreases n
  {
    if n == 0 || index + 2 >= |d| || d[index] != INS_JMP then index else Hop(d, Word(d, index + 1), n - 1)
  }

  /** The loop comes to an address whose opcode is no INS_JMP. */
  ghost predicate Stops(d: seq<byte>, index: nat) {
    exists n: nat :: StopsAfter(d, index, n)
  }

  ghost predicate StopsAfter(d: seq<byte>, index: nat, n: nat) {
    var a := Hop(d, index, n);
    a < |d| && d[a] != INS_JMP
  }

  lemma StopsNext(d: seq<byte>, index: nat)
    requires index + 2 < |d| && d[index] == INS_JMP
    ensures Stops(d, index) <==> Stops(d, Word(d, index + 1))
  {
    if Stops(d, index) {
      var n: nat :| StopsAfter(d, index, n);
      assert StopsAfter(d, Word(d, index + 1), n - 1);
    }
    if Stops(d, Word(d, index + 1)) {
      var n: nat :| StopsAfter(d, Word(d, index + 1), n);
      assert StopsAfter(d, index, n + 1);
    }
  }

  /** Branch j has been scanned: it leads to where its chain leaves INS_JMP. */
  ghost predicate Redirected(p: Program, d: seq<byte>, j: nat)
    requires p.Aimed() && j < p.Count() && p.to[j] < p.Count() && p.at[j] + 2 < |d|
  {
    exists n: nat :: p.Op(Walk(p, p.to[j], n)) != INS_JMP && Word(d, p.at[j] + 1) == p.at[Walk(p, p.to[j], n)]
  }

  /** The code when the first i instructions have been scanned, whatever the chains behind them do. */
  ghost predicate Rewriting(p: Program, d: seq<byte>, i: nat, j: nat)
    requires p.Aimed() && j < p.Count()
  {
    && p.at[j] < |d| && d[p.at[j]] == p.Op(j) && LengthAt(d, p.at[j]) == p.Size(j)
    && (IsBranch(p.Op(j)) ==>
          && p.to[j] < p.Count() && p.at[j] + 2 < |d|
          && if j < i then Redirected(p, d, j) else Word(d, p.at[j] + 1) == p.at[p.to[j]])
  }

  ghost predicate PartlyThreaded(p: Program, d: seq<byte>, i: nat)
    requires p.Aimed()
  {
    forall j :: 0 <= j < p.Count() ==> Rewriting(p, d, i, j)
  }

  lemma {:induction false} LeavingStops(p: Program, d: seq<byte>, i: nat, t: nat, n: nat)
    requires p.Aimed() && PartlyThreaded(p, d, i) && t < p.Count() && p.Op(Walk(p, t, n)) != INS_JMP
    ensures p.at[t] < |d| && Stops(d, p.at[t])
    decreases n
  {
    assert Rewriting(p, d, i, t);
    if p.Op(t) == INS_JMP {
      StopsNext(d, p.at[t]);
      if t < i {
        var k: nat :| p.Op(Walk(p, p.to[t], k)) != INS_JMP && Word(d, p.at[t] + 1) == p.at[Walk(p, p.to[t], k)];
        assert Rewriting(p, d, i, Walk(p, p.to[t], k));
        assert StopsAfter(d, p.at[Walk(p, p.to[t], k)], 0);
      } else {
        LeavingStops(p, d, i, p.to[t], n - 1);
      }
    } else {
      assert StopsAfter(d, p.at[t], 0);
    }
  }

  lemma {:induction false} StoppingLeaves(p: Program, d: seq<byte>, i: nat, t: nat, n: nat)
    requires p.Aimed() && PartlyThreaded(p, d, i) && t < p.Count() && StopsAfter(d, p.at[t], n)
    ensures Leaves(p, t)
    decreases n
  {
    assert Rewriting(p, d, i, t);
    if p.Op(t) == INS_JMP {
      LeavesNext(p, t);
      if t >= i {
        StoppingLeaves(p, d, i, p.to[t], n - 1);
      }
    } else {
      assert p.Op(Walk(p, t, 0)) != INS_JMP;
    }
  }

  /**
    The inner loop of branch i, on code whose earlier branches have been rewritten, ends if and only if
    some number of steps along the targets of the original program leads to an instruction that is no INS_JMP.
    */
  lemma InnerLoopEnds(p: Program, d: seq<byte>, i: nat)
    requires p.Aimed() && PartlyThreaded(p, d, i) && i < p.Count() && IsBranch(p.Op(i))
    ensures p.to[i] < p.Count() && p.at[i] + 2 < |d|
    ensures Stops(d, Word(d, p.at[i] + 1)) <==> Leaves(p, p.to[i])
  {
    hide PartlyThreaded, Hop, Walk;
    ScannedBranch(p, d, i);
    var t := p.to[i];
    if Stops(d, p.at[t]) {
      var n: nat :| StopsAfter(d, p.at[t], n);
      StoppingLeaves(p, d, i, t, n);
    }
    if Leaves(p, t) {
      var n: nat :| p.Op(Walk(p, t, n)) != INS_JMP;
      LeavingStops(p, d, i, t, n);
    }
  }

  lemma ScannedBranch(p: Program, d: seq<byte>, i: nat)
    requires p.Aimed() && PartlyThreaded(p, d, i) && i < p.Count() && IsBranch(p.Op(i))
    ensures p.to[i] < p.Count() && p.at[i] + 2 < |d| && Word(d, p.at[i] + 1) == p.at[p.to[i]]
  {
    assert Rewriting(p, d, i, i);
  }

  /** A jump to itself: the loop never ends, and no ranks make the program valid. */
  lemma SelfJump() returns (p: Program)
    ensures p.code == [INS_JMP, 0, 0] && p.Aimed() && p.Count() == 1 && p.to[0] == 0
    ensures !Leaves(p, 0) && !Stops(p.code, 0) && !(exists r: seq<nat> :: p.(rank := r).Valid())
  {
    p := Program([INS_JMP, 0, 0], [0, 3], [0], [0]);
    assert p.Follows(0) && p.Aims(0);
    forall n: nat
      ensures p.Op(Walk(p, 0, n)) == INS_JMP
    {
      Circles(p, n);
    }
    assert PartlyThreaded(p, p.code, 0) by {
      assert Rewriting(p, p.code, 0, 0);
    }
    InnerLoopEnds(p, p.code, 0);
    RanksExist(p);
  }

  lemma {:induction false} Circles(p: Program, n: nat)
    requires p.Aimed() && p.Count() == 1 && p.to[0] == 0
    ensures Walk(p, 0, n) == 0
    decreases n
  {
    if n > 0 { Circles(p, n - 1); }
  }

  // ---------- the whole pass ----------

  /** The buffer, the address of the instruction looked at and, inside the inner loop, `index`. */
  datatype PassOne = PassOne(d: seq<byte>, pc: nat, hop: Option<word>) {

    /** The bytes that the next step looks at lie in the buffer. */
    predicate Readable() {
      && |d| == BUFFER_SIZE
      && match hop
         case None => pc < |d| && (IsBranch(d[pc]) ==> pc + 2 < |d|)
         case Some(x) => pc + 2 < |d| && (d[x] == INS_JMP ==> x + 2 < |d|)
    }

    /** The switch, or one turn of the inner loop, or the store behind it. */
    function Step(): PassOne
      requires Readable()
    {
      match hop
      case None =>
        if IsBranch(d[pc]) then this.(hop := Some(Word(d, pc + 1)))
        else if Listed(d[pc]) then this.(pc := pc + LengthAt(d, pc))
        else this
      case Some(x) =>
        if d[x] == INS_JMP then this.(hop := Some(Word(d, x + 1))) else PassOne(WithWord(d, pc + 1, x), pc + 3, None)
    }

    predicate AtEnd(size: nat) {
      hop.None? && pc == size
    }

    /** The state after n steps, or where the pass ends before that. */
    function Steps(size: nat, n: nat): PassOne
      decreases n
    {
      if n == 0 || AtEnd(size) || !Readable() then this else Step().Steps(size, n - 1)
    }

    ghost predicate Ends(size: nat) {
      exists n: nat :: Steps(size, n).AtEnd(size)
    }

    /** A pass that is not at its end ends if and only if it does so after one more step. */
    lemma OneStep(size: nat)
      requires Readable() && !AtEnd(size)
      ensures Ends(size) <==> Step().Ends(size)
    {
      hide Readable, Step;
      if Ends(size) {
        var n: nat :| Steps(size, n).AtEnd(size);
        assert Step().Steps(size, n - 1).AtEnd(size);
      }
      if Step().Ends(size) {
        var n: nat :| Step().Steps(size, n).AtEnd(size);
        assert Steps(size, n + 1).AtEnd(size);
      }
    }

    lemma {:induction false} StepsCompose(size: nat, a: nat, b: nat)
      ensures Steps(size, a + b) == Steps(size, a).Steps(size, b)
      decreases a
    {
      hide Readable, Step;
      if a > 0 && Readable() && !AtEnd(size) {
        Step().StepsCompose(size, a - 1, b);
      }
    }

    lemma NoStep(size: nat)
      ensures Steps(size, 0) == this
    {
    }

    lemma NextStep(size: nat, n: nat)
      requires var s := Steps(size, n); s.Readable() && !s.AtEnd(size)
      ensures Steps(size, n + 1) == Steps(size, n).Step()
    {
      hide Readable, Step;
      StepsCompose(size, n, 1);
      assert Steps(size, n).Steps(size, 1) == Steps(size, n).Step().Steps(size, 0);
    }

    /** Where the chain from `index` leaves INS_JMP, the pass goes on behind the branch. */
    lemma {:induction false} HopsOut(size: nat, x: word, n: nat)
      requires |d| == BUFFER_SIZE && pc + 2 < |d| && hop == Some(x) && StopsAfter(d, x, n)
      ensures var e: word := Hop(d, x, n);
              Ends(size) <==> PassOne(WithWord(d, pc + 1, e), pc + 3, None).Ends(size)
      decreases n
    {
      hide WithWord, Word;
      StopsInside(d, x, n);
      OneStep(size);
      if d[x] == INS_JMP {
        Step().HopsOut(size, Word(d, x + 1), n - 1);
      }
    }

    /** Where it does not, the pass stays inside the inner loop. */
    lemma {:induction false} HopsForEver(size: nat, n: nat)
      requires |d| == BUFFER_SIZE && pc + 2 < |d| && hop.Some? && !Stops(d, hop.value)
      ensures !Steps(size, n).AtEnd(size)
      decreases n
    {
      hide Word, Stops;
      if n > 0 && Readable() {
        NotStopped(d, hop.value);
        if hop.value + 2 < |d| {
          StopsNext(d, hop.value);
        }
        Step().HopsForEver(size, n - 1);
      }
    }
  }

  lemma StopsInside(d: seq<byte>, x: nat, n: nat)
    requires |d| == BUFFER_SIZE && StopsAfter(d, x, n)
    ensures x < |d| && Hop(d, x, n) < |d|
    ensures d[x] != INS_JMP ==> Hop(d, x, n) == x
    ensures d[x] == INS_JMP ==>
              && x + 2 < |d| && n > 0 && StopsAfter(d, Word(d, x + 1), n - 1)
              && Hop(d, x, n) == Hop(d, Word(d, x + 1), n - 1)
  {
    hide Word;
  }

  lemma NotStopped(d: seq<byte>, x: nat)
    requires x < |d| && !Stops(d, x)
    ensures d[x] == INS_JMP
  {
    assert d[x] != INS_JMP ==> StopsAfter(d, x, 0);
  }

  /** The branch, if it is one, is not caught in a cycle. */
  ghost predicate Escapes(p: Program, i: nat)
    requires p.Aimed() && i < p.Count()
  {
    IsBranch(p.Op(i)) ==> p.to[i] < p.Count() && Leaves(p, p.to[i])
  }

  /** Where the loop lands from the start of instruction t, the chain from t has left INS_JMP. */
  lemma {:induction false} HopIsWalk(p: Program, d: seq<byte>, i: nat, t: nat, m: nat) returns (n: nat)
    requires p.Aimed() && PartlyThreaded(p, d, i) && t < p.Count() && StopsAfter(d, p.at[t], m)
    ensures p.Op(Walk(p, t, n)) != INS_JMP && Hop(d, p.at[t], m) == p.at[Walk(p, t, n)]
    decreases m
  {
    assert Rewriting(p, d, i, t);
    n := 0;
    if p.Op(t) == INS_JMP {
      var k: nat;
      if t < i {
        k :| p.Op(Walk(p, p.to[t], k)) != INS_JMP && Word(d, p.at[t] + 1) == p.at[Walk(p, p.to[t], k)];
        assert Rewriting(p, d, i, Walk(p, p.to[t], k));
      } else {
        k := HopIsWalk(p, d, i, p.to[t], m - 1);
      }
      n := k + 1;
    }
  }

  /** Storing where the chain ends scans one more branch. */
  lemma BranchScanned(p: Program, d: seq<byte>, i: nat, m: nat)
    requires p.Aimed() && |p.code| < BUFFER_SIZE == |d| && PartlyThreaded(p, d, i) && i < p.Count() && IsBranch(p.Op(i))
    requires p.at[i] + 2 < |d| && StopsAfter(d, Word(d, p.at[i] + 1), m)
    ensures var e: word := Hop(d, Word(d, p.at[i] + 1), m); PartlyThreaded(p, WithWord(d, p.at[i] + 1, e), i + 1)
  {
    hide PartlyThreaded, Walk, Hop, Word, WithWord, LengthAt;
    ScannedBranch(p, d, i);
    var n := HopIsWalk(p, d, i, p.to[i], m);
    var v: word := Hop(d, Word(d, p.at[i] + 1), m);
    var e := WithWord(d, p.at[i] + 1, v);
    forall j {:trigger p.at[j]} | 0 <= j < p.Count()
      ensures Rewriting(p, e, i + 1, j)
    {
      StillRewriting(p, d, i, j, v, n);
    }
    AllRewriting(p, e, i + 1);
  }

  lemma AllRewriting(p: Program, d: seq<byte>, i: nat)
    requires p.Aimed() && forall j :: 0 <= j < p.Count() ==> Rewriting(p, d, i, j)
    ensures PartlyThreaded(p, d, i)
  {
  }

  lemma StillRewriting(p: Program, d: seq<byte>, i: nat, j: nat, v: word, n: nat)
    requires p.Aimed() && |p.code| < BUFFER_SIZE == |d| && PartlyThreaded(p, d, i) && i < p.Count() && j < p.Count()
    requires IsBranch(p.Op(i)) && p.at[i] + 2 < |d| && p.to[i] < p.Count()
    requires p.Op(Walk(p, p.to[i], n)) != INS_JMP && v == p.at[Walk(p, p.to[i], n)]
    ensures Rewriting(p, WithWord(d, p.at[i] + 1, v), i + 1, j)
  {
    hide Walk, Word, Program.Laid;
    assert Rewriting(p, d, i, i) && Rewriting(p, d, i, j);
    Apart(p, i, j);
    if i != j {
      WithWordElsewhere(d, p.at[i] + 1, v, p.at[j], p.at[j + 1]);
      assert WithWord(d, p.at[i] + 1, v)[p.at[j]] == d[p.at[j]];
      if IsBranch(p.Op(j)) {
        WithWordElsewhere(d, p.at[i] + 1, v, p.at[j] + 1, p.at[j] + 3);
      }
    }
  }

  lemma Apart(p: Program, i: nat, j: nat)
    requires p.Laid() && i < p.Count() && j < p.Count()
    ensures p.at[i] < p.at[i + 1] == p.at[i] + p.Size(i) <= |p.code|
    ensures p.at[j] < p.at[j + 1] == p.at[j] + p.Size(j) <= |p.code|
    ensures IsBranch(p.Op(i)) ==> p.Size(i) == 3
    ensures IsBranch(p.Op(j)) ==> p.Size(j) == 3
    ensures i != j ==> p.at[i + 1] <= p.at[j] || p.at[j + 1] <= p.at[i]
    ensures p.Op(j) == INS_LBL ==> p.Size(j) >= 2
    ensures Listed(p.Op(i))
  {
    assert p.Follows(i) && p.Follows(j);
    p.Increasing(i + 1, p.Count());
    p.Increasing(j + 1, p.Count());
    if i < j { p.Increasing(i + 1, j); }
    if j < i { p.Increasing(j + 1, i); }
  }

  lemma OtherScanned(p: Program, d: seq<byte>, i: nat)
    requires p.Aimed() && PartlyThreaded(p, d, i) && i < p.Count() && !IsBranch(p.Op(i))
    ensures PartlyThreaded(p, d, i + 1)
  {
    hide Walk, Word, LengthAt;
    forall j {:trigger p.at[j]} | 0 <= j < p.Count()
      ensures Rewriting(p, d, i + 1, j)
    {
      assert Rewriting(p, d, i, j);
    }
  }

  /** Where the pass is in front of instruction i. */
  lemma InFront(p: Program, d: seq<byte>, i: nat)
    requires p.Aimed() && |p.code| < BUFFER_SIZE == |d| && PartlyThreaded(p, d, i) && i < p.Count()
    ensures p.at[i] < p.at[i + 1] <= |p.code| && d[p.at[i]] == p.Op(i)
    ensures var s := PassOne(d, p.at[i], None);
            && s.Readable() && !s.AtEnd(|p.code|)
            && (!IsBranch(p.Op(i)) ==> s.Step() == PassOne(d, p.at[i + 1], None))
            && (IsBranch(p.Op(i)) ==>
                  p.at[i + 1] == p.at[i] + 3 && s.Step() == PassOne(d, p.at[i], Some(Word(d, p.at[i] + 1))))
  {
    hide Walk, Word, Program.Laid;
    assert Rewriting(p, d, i, i);
    Apart(p, i, i);
  }

  lemma {:induction false} PassOneEndsFrom(p: Program, d: seq<byte>, i: nat)
    requires p.Aimed() && |p.code| < BUFFER_SIZE == |d| && i <= p.Count() && PartlyThreaded(p, d, i)
    ensures PassOne(d, p.at[i], None).Ends(|p.code|) <==> forall j :: i <= j < p.Count() ==> Escapes(p, j)
    decreases p.Count() - i
  {
    hide PartlyThreaded, Hop, Walk, Leaves, PassOne.Readable, PassOne.Step, Word, WithWord;
    var s, size := PassOne(d, p.at[i], None), |p.code|;
    if i == p.Count() {
      assert s.Steps(size, 0).AtEnd(size);
    } else {
      InFront(p, d, i);
      s.OneStep(size);
      if !IsBranch(p.Op(i)) {
        OtherScanned(p, d, i);
        PassOneEndsFrom(p, d, i + 1);
      } else {
        var t, x := s.Step(), Word(d, p.at[i] + 1);
        InnerLoopEnds(p, d, i);
        if Stops(d, x) {
          var m: nat :| StopsAfter(d, x, m);
          t.HopsOut(size, x, m);
          BranchScanned(p, d, i, m);
          PassOneEndsFrom(p, WithWord(d, p.at[i] + 1, Hop(d, x, m)), i + 1);
        } else {
          forall n: nat
            ensures !t.Steps(size, n).AtEnd(size)
          {
            t.HopsForEver(size, n);
          }
          assert !t.Ends(size) && !Escapes(p, i);
        }
      }
    }
  }

  /** No branch is caught if and only if no instruction is the start of a cycle. */
  lemma AllEscape(p: Program)
    requires p.Aimed()
    ensures (forall j :: 0 <= j < p.Count() ==> Escapes(p, j)) <==> AllLeave(p)
  {
    hide Leaves, Walk;
    forall t | 0 <= t < p.Count()
      ensures IsBranch(p.Op(t)) ==> p.to[t] < p.Count()
      ensures Leaves(p, t) <==> p.Op(t) != INS_JMP || Escapes(p, t)
    {
      assert p.Aims(t);
      if p.Op(t) == INS_JMP { LeavesNext(p, t); } else { LeavesNow(p, t); }
    }
  }

  lemma LeavesNow(p: Program, t: nat)
    requires p.Aimed() && t < p.Count() && p.Op(t) != INS_JMP
    ensures Leaves(p, t)
  {
    assert p.Op(Walk(p, t, 0)) != INS_JMP;
  }

  lemma NothingScanned(p: Program, d: seq<byte>)
    requires p.Aimed() && |p.code| <= |d| && d[..|p.code|] == p.code
    ensures PartlyThreaded(p, d, 0) && p.at[0] == 0
  {
    forall j {:trigger p.at[j]} | 0 <= j < p.Count()
      ensures Rewriting(p, d, 0, j)
    {
      assert p.Aims(j);
      Apart(p, j, j);
      var a, b := p.at[j], p.at[j + 1];
      assert d[a] == d[..|p.code|][a];
      assert a + 1 < b ==> d[a + 1] == d[..|p.code|][a + 1];
      assert a + 2 < b ==> d[a + 2] == d[..|p.code|][a + 2];
    }
  }

  /** Pass 1 ends on the code of p if and only if every chain of INS_JMP of p leaves INS_JMP. */
  lemma PassOneEnds(p: Program, d: seq<byte>)
    requires p.Aimed() && |p.code| < BUFFER_SIZE == |d| && d[..|p.code|] == p.code
    ensures PassOne(d, 0, None).Ends(|p.code|) <==> AllLeave(p)
  {
    hide PartlyThreaded, AllLeave, Escapes, PassOne.Ends;
    NothingScanned(p, d);
    PassOneEndsFrom(p, d, 0);
    AllEscape(p);
  }

  // ---------- valid programs ----------

  lemma {:induction false} ChainIsWalk(p: Program, t: nat) returns (n: nat)
    requires p.Valid() && t < p.Count()
    ensures Walk(p, t, n) == p.ChainEnd(t)
    decreases if p.Op(t) == INS_JMP then p.rank[t] + 1 else 0
  {
    n := 0;
    if p.Op(t) == INS_JMP {
      p.Instruction(t);
      var k := ChainIsWalk(p, p.to[t]);
      n := k + 1;
    }
  }

  /** What pass 1 keeps of a valid program is such a state, so its inner loop ends at every branch. */
  lemma ThreadingStops(p: Program, d: seq<byte>, i: nat)
    requires p.Valid() && ThreadedUpTo(p, d, i) && i < p.Count() && IsBranch(p.Op(i))
    ensures PartlyThreaded(p, d, i) && p.at[i] + 2 < |d| && Stops(d, Word(d, p.at[i] + 1))
  {
    hide Walk, Program.ChainEnd, ThreadedUpTo, Leaves, Stops;
    forall j | 0 <= j < p.Count()
      ensures Rewriting(p, d, i, j)
    {
      OperandIn(p, d, d, i, j);
      LengthKept(p, d, i, j);
      if IsBranch(p.Op(j)) {
        var n := ChainIsWalk(p, p.to[j]);
        assert j < i ==> p.Op(Walk(p, p.to[j], n)) != INS_JMP && Word(d, p.at[j] + 1) == p.at[Walk(p, p.to[j], n)];
      }
    }
    p.Instruction(i);
    LeavesAtEnd(p, p.to[i]);
    InnerLoopEnds(p, d, i);
  }

  lemma LengthKept(p: Program, d: seq<byte>, i: nat, j: nat)
    requires p.Valid() && ThreadedUpTo(p, d, i) && j < p.Count()
    ensures p.at[j] < |d| && LengthAt(d, p.at[j]) == p.Size(j)
  {
    hide Program.ChainEnd;
    assert Rewritten(p, d, i, j) && p.Follows(j);
    var a, b := p.at[j], p.at[j + 1];
    if p.Op(j) == INS_LBL {
      assert d[a..b][1] == p.code[a..b][1];
    }
  }

  lemma LeavesAtEnd(p: Program, t: nat)
    requires p.Valid() && t < p.Count()
    ensures Leaves(p, t)
  {
    var n := ChainIsWalk(p, t);
    assert p.Op(Walk(p, t, n)) != INS_JMP;
  }
}
