/** What pass 1 of the L1 optimizer (il1_optimizer.c) makes of a program. */
module Threading {
  import opened Bytes
  import opened Isa
  import opened Program

  /** In d, with the first n instructions scanned, branch j < n leads to its chain end and any other j is as in p. */
  ghost predicate Rewritten(p: Program, d: seq<byte>, n: nat, j: nat)
    requires p.Valid() && |d| == |p.code| && j < p.Count()
  {
    assert p.Follows(j);
    && d[p.at[j]] == p.Op(j)
    && if j < n && IsBranch(p.Op(j)) then Word(d, p.at[j] + 1) == p.at[p.Threaded(j)]
       else d[p.at[j]..p.at[j + 1]] == p.code[p.at[j]..p.at[j + 1]]
  }

  ghost predicate ThreadedUpTo(p: Program, d: seq<byte>, n: nat)
    requires p.Valid()
  {
    && |d| == |p.code| && n <= p.Count()
    && forall j :: 0 <= j < p.Count() ==> Rewritten(p, d, n, j)
  }

  lemma NothingThreaded(p: Program, d: seq<byte>)
    requires p.Valid() && d == p.code
    ensures p.Laid() && ThreadedUpTo(p, d, 0) && p.at[0] == 0
  {
  }

  /** The operand of jump j in d: its old target, or its chain end once scanned. */
  lemma OperandOf(p: Program, d: seq<byte>, n: nat, j: nat)
    requires p.Valid() && ThreadedUpTo(p, d, n) && j < p.Count() && IsJump(p.Op(j))
    ensures d[p.at[j]] == p.Op(j)
    ensures Word(d, p.at[j] + 1) == p.at[if j < n then p.Threaded(j) else p.to[j]]
  {
    var a := p.at[j];
    assert Rewritten(p, d, n, j);
    assert p.at[j + 1] == a + 3;
    if !(j < n && IsBranch(p.Op(j))) {
      assert d[a..a + 3][1] == p.code[a..a + 3][1] && d[a..a + 3][2] == p.code[a..a + 3][2];
    }
  }

  /** The same in a buffer c that starts with d. */
  lemma OperandIn(p: Program, d: seq<byte>, c: seq<byte>, n: nat, j: nat)
    requires p.Valid() && ThreadedUpTo(p, d, n) && j < p.Count() && |d| <= |c| && c[..|d|] == d
    ensures p.Laid() && |p.to| == |p.rank| == p.Count()
    ensures p.at[j] < p.at[j + 1] <= |d| == |p.code| && c[p.at[j]] == p.Op(j)
    ensures IsJump(p.Op(j)) ==>
              && p.at[j + 1] == p.at[j] + 3 && p.to[j] < p.Count()
              && Word(c, p.at[j] + 1) == p.at[if j < n then p.Threaded(j) else p.to[j]]
  {
    hide Program.Valid, Program.Laid, LengthAt;
    p.Instruction(j);
    assert Rewritten(p, d, n, j);
    assert c[p.at[j]] == d[p.at[j]];
    if IsJump(p.Op(j)) {
      OperandOf(p, d, n, j);
      assert c[p.at[j] + 1] == d[p.at[j] + 1] && c[p.at[j] + 2] == d[p.at[j] + 2];
    }
  }

  /** One hop along a chain keeps its end and comes closer to it. */
  lemma HopsOn(p: Program, n: nat, t: nat)
    requires p.Valid() && n < p.Count() && t < p.Count() && p.Op(t) == INS_JMP
    ensures var u: nat := if t < n then p.Threaded(t) else p.to[t];
            && u < p.Count() && p.ChainEnd(u) == p.ChainEnd(t)
            && (p.Op(u) == INS_JMP ==> p.rank[u] < p.rank[t])
  {
    hide Program.Laid;
    p.Instruction(t);
  }

  /** Rewriting the operand of branch n extends the threaded prefix by one instruction. */
  lemma ThreadOne(p: Program, d: seq<byte>, n: nat)
    requires p.Valid() && ThreadedUpTo(p, d, n) && n < p.Count() && IsBranch(p.Op(n))
    requires |p.code| <= BUFFER_SIZE
    ensures ThreadedUpTo(p, WithWord(d, p.at[n] + 1, p.at[p.Threaded(n)]), n + 1)
  {
    var v := p.at[p.Threaded(n)];
    var e := WithWord(d, p.at[n] + 1, v);
    forall j {:trigger p.at[j]} | 0 <= j < p.Count()
      ensures Rewritten(p, e, n + 1, j)
    {
      assert Rewritten(p, d, n, j);
      assert p.at[n + 1] == p.at[n] + 3;
      if j != n {
        if j < n { p.Increasing(j + 1, n); } else { p.Increasing(n + 1, j); }
        WithWordElsewhere(d, p.at[n] + 1, v, p.at[j], p.at[j + 1]);
        if IsBranch(p.Op(j)) {
          assert p.at[j + 1] == p.at[j] + 3;
          WithWordElsewhere(d, p.at[n] + 1, v, p.at[j] + 1, p.at[j] + 3);
        }
      }
    }
  }

  /** Any other instruction is stepped over by its length, read from the buffer c that holds d. */
  lemma ThreadNone(p: Program, d: seq<byte>, c: seq<byte>, n: nat)
    requires p.Valid() && ThreadedUpTo(p, d, n) && n < p.Count() && !IsBranch(p.Op(n))
    requires |d| <= |c| && c[..|d|] == d
    ensures LengthAt(c, p.at[n]) == p.Size(n) && ThreadedUpTo(p, d, n + 1)
  {
    var a, b := p.at[n], p.at[n + 1];
    assert p.Follows(n) && Rewritten(p, d, n, n);
    assert c[a] == d[a];
    if p.Op(n) == INS_LBL {
      assert c[a + 1] == d[a + 1] == d[a..b][1] == p.code[a..b][1];
    }
    forall j {:trigger p.at[j]} | 0 <= j < p.Count()
      ensures Rewritten(p, d, n + 1, j)
    {
      assert Rewritten(p, d, n, j);
    }
  }

  /** The program pass 1 leaves. */
  ghost function After(p: Program, d: seq<byte>): Program
    requires p.Valid()
  {
    Program(d, p.at,
            seq(p.Count(), i requires 0 <= i < p.Count() => if IsJump(p.Op(i)) then p.Threaded(i) else p.to[i]),
            p.rank)
  }

  lemma AfterIsValid(p: Program, d: seq<byte>)
    requires p.Valid() && ThreadedUpTo(p, d, p.Count())
    ensures After(p, d).Valid()
    ensures var q := After(p, d); forall i {:trigger q.Op(i)} :: 0 <= i < q.Count() ==>
      q.Op(i) == p.Op(i) && (IsBranch(q.Op(i)) ==> q.Op(q.to[i]) != INS_JMP)
  {
    var q := After(p, d);
    forall i | 0 <= i < q.Count()
      ensures q.Follows(i)
    {
      assert Rewritten(p, d, p.Count(), i) && p.Follows(i);
      if p.Op(i) == INS_LBL {
        assert d[p.at[i]..p.at[i + 1]][1] == p.code[p.at[i]..p.at[i + 1]][1];
      }
    }
    forall i | 0 <= i < q.Count()
      ensures q.Aims(i)
    {
      assert Rewritten(p, d, p.Count(), i);
      if IsJump(p.Op(i)) {
        OperandOf(p, d, p.Count(), i);
      }
    }
    forall i | 0 <= i < q.Count()
      ensures q.Op(i) == p.Op(i)
    {
      assert Rewritten(p, d, p.Count(), i);
    }
  }
}
