/** What pass 2 of the L1 optimizer (il1_optimizer.c) makes of a program. */
module Compaction {
  import opened Bytes
  import opened Isa
  import opened Program

  /** coderec: `rdc` bytes were deleted at original address `offset`. */
  datatype CodeRec = CodeRec(offset: word, rdc: word)

  /** optrec: the jump now at `opt_offset` waits for original address `index`. */
  datatype OptRec = OptRec(offset: word, opt_offset: word, ins: byte, index: word)

  // ---------- the two coordinate systems ----------

  /** Labels go, and so does any jump to its own successor. */
  ghost predicate Removed(p: Program, i: nat)
    requires p.Valid() && i < p.Count()
  {
    p.Op(i) == INS_LBL || (IsJump(p.Op(i)) && p.to[i] == i + 1)
  }

  /** Bytes deleted in front of instruction i. */
  ghost function Deleted(p: Program, i: nat): (r: nat)
    requires p.Valid() && i <= p.Count()
    ensures r <= p.at[i]
  {
    if i == 0 then 0
    else Deleted(p, i - 1) + if Removed(p, i - 1) then p.Size(i - 1) else 0
  }

  /** The new offset of instruction i, or of the next surviving one if i is removed. */
  ghost function New(p: Program, i: nat): (a: nat)
    requires p.Valid() && i <= p.Count()
  {
    p.at[i] - Deleted(p, i)
  }

  lemma SameStart(p: Program, i: nat, j: nat)
    requires p.Valid() && i <= p.Count() && j <= p.Count()
    ensures p.at[i] == p.at[j] <==> i == j
  {
    if i < j { p.Increasing(i, j); } else { p.Increasing(j, i); }
  }

  /** On bytes: labels go, and jumps whose operand is the address behind them. */
  lemma RemovedIs(p: Program, i: nat)
    requires p.Valid() && i < p.Count()
    ensures p.at[i + 1] == p.at[i] + p.Size(i) && (IsJump(p.Op(i)) ==> p.Size(i) == 3)
    ensures Removed(p, i) <==>
              p.Op(i) == INS_LBL || (IsJump(p.Op(i)) && Word(p.code, p.at[i] + 1) == p.at[i] + 3)
  {
    p.Instruction(i);
    if IsJump(p.Op(i)) { SameStart(p, p.to[i], i + 1); }
  }

  /** New offsets leave out exactly what is removed. */
  lemma NewIs(p: Program, i: nat)
    requires p.Valid() && i < p.Count()
    ensures New(p, 0) == 0 && New(p, i + 1) == New(p, i) + if Removed(p, i) then 0 else p.Size(i)
  {
    p.Instruction(i);
  }

  /** Forward jumps are always deferred or removed. */
  lemma AheadIsAbove(p: Program, i: nat)
    requires p.Valid() && i < p.Count() && IsJump(p.Op(i))
    ensures p.to[i] > i ==> p.at[p.to[i]] > New(p, i)
  {
    if p.to[i] > i { p.Increasing(i, p.to[i]); }
  }

  lemma {:induction false} NewIsMonotone(p: Program, i: nat, j: nat)
    requires p.Valid() && i <= j <= p.Count()
    ensures Deleted(p, i) <= Deleted(p, j) && New(p, i) <= New(p, j)
    ensures i < j && !Removed(p, i) ==> New(p, i) + p.Size(i) <= New(p, j)
    decreases j - i
  {
    if i < j {
      NewIsMonotone(p, i + 1, j);
    }
  }

  // ---------- records ----------

  /** The code records once i instructions have been scanned. */
  ghost function Recs(p: Program, i: nat): seq<CodeRec>
    requires p.Valid() && |p.code| < BUFFER_SIZE && i <= p.Count()
  {
    if i == 0 then []
    else Recs(p, i - 1) + if Removed(p, i - 1) then [CodeRec(p.at[i - 1], p.Size(i - 1))] else []
  }

  /** Total reduction recorded at or before an original address. */
  function Reduction(recs: seq<CodeRec>, offset: nat): nat {
    if recs == [] then 0
    else
      var r := recs[|recs| - 1];
      Reduction(recs[..|recs| - 1], offset) + if r.offset <= offset then r.rdc else 0
  }

  ghost predicate Increasing(recs: seq<CodeRec>) {
    forall a, b :: 0 <= a < b < |recs| ==> recs[a].offset < recs[b].offset
  }

  lemma RecsUnfold(p: Program, i: nat, o: nat)
    requires p.Valid() && |p.code| < BUFFER_SIZE && i < p.Count()
    ensures Reduction(Recs(p, i + 1), o)
         == Reduction(Recs(p, i), o) + if Removed(p, i) && p.at[i] <= o then p.Size(i) else 0
  {
    var r := Recs(p, i + 1);
    assert if Removed(p, i) then r[..|r| - 1] == Recs(p, i) else r == Recs(p, i);
  }

  lemma {:induction false} RecsAreIncreasing(p: Program, i: nat)
    requires p.Valid() && |p.code| < BUFFER_SIZE && i <= p.Count()
    ensures Increasing(Recs(p, i))
    ensures forall r <- Recs(p, i) :: r.offset < p.at[i]
  {
    if i > 0 {
      RecsAreIncreasing(p, i - 1);
      assert p.Size(i - 1) > 0;
    }
  }

  /** At the scanned address itself every record counts. */
  lemma {:induction false} ReductionSoFar(p: Program, i: nat, o: nat)
    requires p.Valid() && |p.code| < BUFFER_SIZE && i <= p.Count() && p.at[i] <= o
    ensures Reduction(Recs(p, i), o) == Deleted(p, i)
  {
    if i > 0 {
      assert p.Size(i - 1) > 0;
      ReductionSoFar(p, i - 1, o);
      RecsUnfold(p, i - 1, o);
    }
  }

  /** Records for instructions behind t do not count at t; a record for t itself does. */
  lemma {:induction false} ReductionAt(p: Program, t: nat, i: nat)
    requires p.Valid() && |p.code| < BUFFER_SIZE && t < i <= p.Count()
    ensures Reduction(Recs(p, i), p.at[t]) == Deleted(p, t + 1)
  {
    var m := i - 1;
    RecsUnfold(p, m, p.at[t]);
    if m == t {
      ReductionSoFar(p, t, p.at[t]);
    } else {
      ReductionAt(p, t, m);
      assert p.at[t] < p.at[m] by { p.Increasing(t, m); }
    }
  }

  /** Jump i survives and its target lies above the new offset it is written to. */
  ghost predicate Deferred(p: Program, i: nat)
    requires p.Valid() && i < p.Count()
  {
    IsJump(p.Op(i)) && !Removed(p, i) && p.at[p.to[i]] > New(p, i)
  }

  /** The jumps queued for backpatching once i instructions have been scanned. */
  ghost function Queued(p: Program, i: nat): (r: seq<OptRec>)
    requires p.Valid() && |p.code| < BUFFER_SIZE && i <= p.Count()
  {
    if i == 0 then []
    else Queued(p, i - 1) +
         if Deferred(p, i - 1) then [OptRec(p.at[i - 1], New(p, i - 1), p.Op(i - 1), p.at[p.to[i - 1]])] else []
  }

  // ---------- the operand of a surviving jump ----------

  /** What pass 2 writes into surviving jump i. */
  ghost function Relocated(p: Program, i: nat): (w: word)
    requires p.Valid() && |p.code| < BUFFER_SIZE && i < p.Count() && IsJump(p.Op(i))
  {
    var t := p.to[i];
    p.Increasing(t, p.Count());
    if t > i then New(p, t)
    else if p.at[t] < New(p, i) then Wrap16(p.at[t] - Deleted(p, t + 1))
    else p.at[t]
  }

  /** A backward jump to the address being written, for which the scan has no branch. */
  ghost predicate Stalls(p: Program, i: nat)
    requires p.Valid() && i < p.Count()
  {
    IsJump(p.Op(i)) && !Removed(p, i) && p.at[p.to[i]] == New(p, i)
  }

  /**
    The jumps for which the address the scan computes, if it computes one, is the right one. A backward
    jump that is not translated, and from whose target nothing was deleted, is one that stalls.
    */
  ghost predicate Relocatable(p: Program, i: nat)
    requires p.Valid() && i < p.Count() && IsJump(p.Op(i))
  {
    var t := p.to[i];
    t > i || (if p.at[t] < New(p, i) then !Removed(p, t) else Deleted(p, t) == 0)
  }

  lemma RelocatedIsExact(p: Program, i: nat)
    requires p.Valid() && |p.code| < BUFFER_SIZE && i < p.Count() && IsJump(p.Op(i))
    ensures Relocated(p, i) == New(p, p.to[i]) <==> Relocatable(p, i)
  {
    var t := p.to[i];
    assert p.Size(t) >= 1;
    p.Increasing(t, p.Count());
  }

  /** The jumps that pass 2 gets right, by the guard of the scan that they meet. */
  ghost predicate RelocatedRight(p: Program, i: nat)
    requires p.Valid() && i < p.Count() && IsJump(p.Op(i))
  {
    p.to[i] > i || (p.at[p.to[i]] < New(p, i) && !Removed(p, p.to[i]))
  }

  /** They are those that the scan gets past and computes the right address for. */
  lemma RightIsRelocatable(p: Program, i: nat)
    requires p.Valid() && i < p.Count() && IsJump(p.Op(i))
    ensures RelocatedRight(p, i) <==> Relocatable(p, i) && !Stalls(p, i)
  {
    AheadIsAbove(p, i);
    if p.to[i] <= i { NewIsMonotone(p, p.to[i], i); }
  }

  // ---------- backpatching ----------

  /** The buffer after is_l1_backpatch(offset, v) went through recs. */
  function Patch(d: seq<byte>, recs: seq<OptRec>, offset: nat, v: word): (e: seq<byte>)
    requires forall r <- recs :: r.opt_offset + 2 < |d|
    ensures |e| == |d|
  {
    if recs == [] then d
    else
      var r := recs[|recs| - 1];
      var e := Patch(d, recs[..|recs| - 1], offset, v);
      if r.index == offset then WithWord(e[r.opt_offset := r.ins], r.opt_offset + 1, v) else e
  }

  /** Operand of surviving jump j when i instructions have been scanned. */
  ghost function OperandAt(p: Program, j: nat, i: nat): int
    requires p.Valid() && |p.code| < BUFFER_SIZE && j < p.Count() && IsJump(p.Op(j))
  {
    if p.to[j] > i then p.at[p.to[j]] else Relocated(p, j)
  }

  /** Surviving instruction j sits at its new offset in d. */
  ghost predicate Placed(p: Program, d: seq<byte>, j: nat, i: nat)
    requires p.Valid() && |p.code| < BUFFER_SIZE && j < p.Count() && |p.code| <= |d|
  {
    var a, n := New(p, j), p.Size(j);
    Removed(p, j) ||
    if IsJump(p.Op(j)) then d[a] == p.Op(j) && Word(d, a + 1) == OperandAt(p, j, i)
    else d[a..a + n] == p.code[p.at[j]..p.at[j + 1]]
  }

  /** d after i instructions: they are placed, and the rest of the code follows untouched. */
  ghost predicate Scanned(p: Program, d: seq<byte>, i: nat)
    requires p.Valid() && |p.code| < BUFFER_SIZE && i <= p.Count() && |p.code| <= |d|
  {
    && (forall j :: 0 <= j < i ==> Placed(p, d, j, i))
    && d[New(p, i)..New(p, i) + (|p.code| - p.at[i])] == p.code[p.at[i]..]
  }

  /** Only the bytes below New(p, j + 1) matter for a surviving instruction j. */
  lemma PlacedDependsOn(p: Program, d: seq<byte>, e: seq<byte>, j: nat, i: nat)
    requires p.Valid() && |p.code| < BUFFER_SIZE && j < p.Count() && |p.code| <= |d| == |e|
    requires Placed(p, d, j, i)
    requires !Removed(p, j) ==> d[New(p, j)..New(p, j + 1)] == e[New(p, j)..New(p, j + 1)]
    ensures Placed(p, e, j, i)
  {
    if !Removed(p, j) && IsJump(p.Op(j)) {
      var a, b := New(p, j), New(p, j + 1);
      assert b == a + 3;
      assert d[a..b] == [d[a], d[a + 1], d[a + 2]] && e[a..b] == [e[a], e[a + 1], e[a + 2]];
    }
  }

  lemma {:induction false} QueuedBelow(p: Program, k: nat)
    requires p.Valid() && |p.code| < BUFFER_SIZE && k <= p.Count()
    ensures forall r <- Queued(p, k) :: r.opt_offset + 2 < New(p, k) <= |p.code|
  {
    hide Program.Valid, Program.Laid, Removed, Increasing;
    if k > 0 {
      p.Instruction(k - 1);
      QueuedBelow(p, k - 1);
      NewIsMonotone(p, k - 1, k);
    }
  }

  /** A write at or above New(p, m) keeps an instruction in front of m. */
  lemma PlacedEarlier(p: Program, d: seq<byte>, e: seq<byte>, j: nat, m: nat, i: nat)
    requires p.Valid() && |p.code| < BUFFER_SIZE && j < m < p.Count()
    requires |p.code| <= |d| == |e| && d[..New(p, m)] == e[..New(p, m)]
    requires Placed(p, d, j, i)
    ensures Placed(p, e, j, i)
  {
    hide Program.Valid, Program.Laid, Placed, Removed;
    p.Instruction(m);
    var a, b := New(p, j), New(p, j + 1);
    NewIsMonotone(p, j, j + 1);
    NewIsMonotone(p, j + 1, m);
    SamePrefix(d, e, New(p, m), a, b);
    PlacedDependsOn(p, d, e, j, i);
  }

  lemma PlacedBefore(p: Program, d: seq<byte>, e: seq<byte>, m: nat, i: nat)
    requires p.Valid() && |p.code| < BUFFER_SIZE && m < p.Count()
    requires |p.code| <= |d| == |e| && d[..New(p, m)] == e[..New(p, m)]
    requires forall j :: 0 <= j < m ==> Placed(p, d, j, i)
    ensures forall j :: 0 <= j < m ==> Placed(p, e, j, i)
  {
    forall j | 0 <= j < m
      ensures Placed(p, e, j, i)
    {
      PlacedEarlier(p, d, e, j, m, i);
    }
  }

  /** The buffer after the record of jump m, if there is one, has been looked at for instruction n. */
  ghost function PatchOne(p: Program, e: seq<byte>, m: nat, n: nat): (f: seq<byte>)
    requires p.Valid() && |p.code| < BUFFER_SIZE && |p.code| <= |e| && m < p.Count() && n <= p.Count()
  {
    if Deferred(p, m) && p.at[p.to[m]] == p.at[n] && New(p, m) + 2 < |e|
    then WithWord(e[New(p, m) := p.Op(m)], New(p, m) + 1, New(p, n)) else e
  }

  lemma PatchOneSettles(p: Program, e: seq<byte>, m: nat, i: nat)
    requires p.Valid() && |p.code| < BUFFER_SIZE && |p.code| <= |e|
    requires m <= i < p.Count() && Placed(p, e, m, i)
    ensures var f := PatchOne(p, e, m, i + 1);
            |f| == |e| && e[..New(p, m)] == f[..New(p, m)] && e[New(p, m + 1)..] == f[New(p, m + 1)..]
    ensures Placed(p, PatchOne(p, e, m, i + 1), m, i + 1)
  {
    hide Program.Valid, Program.Laid, LengthAt;
    p.Instruction(m);
    NewIsMonotone(p, m, m + 1);
    if IsJump(p.Op(m)) {
      SameStart(p, p.to[m], i + 1);
      assert p.to[m] > m ==> p.at[p.to[m]] > New(p, m) by { AheadIsAbove(p, m); }
    }
  }

  lemma PatchUnfolds(p: Program, d: seq<byte>, m: nat, n: nat)
    requires p.Valid() && |p.code| < BUFFER_SIZE && |p.code| <= |d| && m < p.Count() && n <= p.Count()
    ensures forall r <- Queued(p, m + 1) + Queued(p, m) :: r.opt_offset + 2 < |d|
    ensures Patch(d, Queued(p, m + 1), p.at[n], New(p, n))
         == PatchOne(p, Patch(d, Queued(p, m), p.at[n], New(p, n)), m, n)
  {
    QueuedBelow(p, m);
    QueuedBelow(p, m + 1);
    var q := Queued(p, m + 1);
    if Deferred(p, m) {
      assert q[..|q| - 1] == Queued(p, m);
      assert q[|q| - 1].opt_offset == New(p, m);
    } else {
      assert q == Queued(p, m);
    }
  }

  /** One record further: the buffer f becomes e = PatchOne(f), relative to the unpatched d. */
  lemma PatchStep(p: Program, d: seq<byte>, f: seq<byte>, m: nat, i: nat, n: nat)
    requires p.Valid() && |p.code| < BUFFER_SIZE && |p.code| <= |d| == |f| && m <= i && n == i + 1 <= p.Count()
    requires Placed(p, d, m, i)
    requires forall j :: 0 <= j < m ==> Placed(p, f, j, n)
    requires f[New(p, m)..] == d[New(p, m)..]
    ensures var e := PatchOne(p, f, m, n); e[New(p, m + 1)..] == d[New(p, m + 1)..]
    ensures var e := PatchOne(p, f, m, n); forall j :: 0 <= j <= m ==> Placed(p, e, j, n)
  {
    hide Program.Valid, Program.Laid, Placed, Removed, PatchOne;
    p.Instruction(m);
    NewIsMonotone(p, m, m + 1);
    SameSuffix(f, d, New(p, m), New(p, m + 1));
    PlacedDependsOn(p, d, f, m, i);
    PatchOneSettles(p, f, m, i);
    var e := PatchOne(p, f, m, n);
    PlacedBefore(p, f, e, m, n);
  }

  /** Backpatching address at[n], n = i + 1, settles exactly the queued jumps to instruction n. */
  lemma {:induction false} PatchSettles(p: Program, d: seq<byte>, k: nat, i: nat, n: nat) returns (e: seq<byte>)
    requires p.Valid() && |p.code| < BUFFER_SIZE && |p.code| <= |d|
    requires k <= n == i + 1 <= p.Count()
    requires forall j :: 0 <= j < k ==> Placed(p, d, j, i)
    ensures forall r <- Queued(p, k) :: r.opt_offset + 2 < |d|
    ensures e == Patch(d, Queued(p, k), p.at[n], New(p, n)) && e[New(p, k)..] == d[New(p, k)..]
    ensures forall j :: 0 <= j < k ==> Placed(p, e, j, n)
  {
    if k == 0 {
      e := d;
    } else {
      var m := k - 1;
      var f := PatchSettles(p, d, m, i, n);
      PatchUnfolds(p, d, m, n);
      PatchStep(p, d, f, m, i, n);
      e := PatchOne(p, f, m, n);
    }
  }

  // ---------- one turn of the scan ----------

  lemma ScanStarts(p: Program, d: seq<byte>)
    requires p.Valid() && |p.code| < BUFFER_SIZE && |p.code| <= |d| && d[..|p.code|] == p.code
    ensures Scanned(p, d, 0)
  {
    assert p.code[0..] == p.code;
  }

  /** Instruction i has been dealt with, the queue has not been looked at yet. */
  ghost predicate Advanced(p: Program, d: seq<byte>, i: nat)
    requires p.Valid() && |p.code| < BUFFER_SIZE && i < p.Count() && |p.code| <= |d|
  {
    && (forall j :: 0 <= j <= i ==> Placed(p, d, j, i))
    && d[New(p, i + 1)..New(p, i + 1) + (|p.code| - p.at[i + 1])] == p.code[p.at[i + 1]..]
  }

  /** The first m bytes of a common tail, and the rest of it. */
  lemma TailSplits(d: seq<byte>, a: nat, c: seq<byte>, p: nat, m: nat)
    requires p + m <= |c| && a + |c| - p <= |d| && d[a..a + (|c| - p)] == c[p..]
    ensures d[a..a + m] == c[p..p + m] && d[a + m..a + m + (|c| - p - m)] == c[p + m..]
    ensures m >= 1 ==> d[a] == c[p]
    ensures m >= 2 ==> d[a + 1] == c[p + 1]
    ensures m >= 3 ==> Word(d, a + 1) == Word(c, p + 1)
  {
    var tail := c[p..];
    assert tail[..m] == c[p..p + m] && tail[m..] == c[p + m..];
    assert m >= 1 ==> tail[0] == d[a];
    assert m >= 2 ==> tail[1] == d[a + 1];
    assert m >= 3 ==> tail[2] == d[a + 2];
  }

  lemma TailBytes(p: Program, d: seq<byte>, i: nat)
    requires p.Valid() && |p.code| < BUFFER_SIZE && i < p.Count() && |p.code| <= |d| && Scanned(p, d, i)
    ensures d[New(p, i)..New(p, i) + p.Size(i)] == p.code[p.at[i]..p.at[i + 1]]
    ensures d[New(p, i)] == p.Op(i)
    ensures p.Size(i) >= 2 ==> d[New(p, i) + 1] == p.code[p.at[i] + 1]
    ensures p.Size(i) >= 3 ==> Word(d, New(p, i) + 1) == Word(p.code, p.at[i] + 1)
    ensures var a := New(p, i) + p.Size(i); d[a..a + (|p.code| - p.at[i + 1])] == p.code[p.at[i + 1]..]
  {
    hide Program.Valid, Program.Laid, Deleted, Placed, Word;
    p.Instruction(i);
    TailSplits(d, New(p, i), p.code, p.at[i], p.Size(i));
  }

  lemma AdvanceTo(p: Program, d: seq<byte>, e: seq<byte>, i: nat)
    requires p.Valid() && |p.code| < BUFFER_SIZE && i < p.Count() && |p.code| <= |d| == |e|
    requires Scanned(p, d, i) && d[..New(p, i)] == e[..New(p, i)]
    requires Placed(p, e, i, i)
    requires e[New(p, i + 1)..New(p, i + 1) + (|p.code| - p.at[i + 1])] == p.code[p.at[i + 1]..]
    ensures Advanced(p, e, i)
  {
    hide Program.Valid, Program.Laid, Placed, Removed, New;
    PlacedBefore(p, d, e, i, i);
  }

  /** What is removed takes no room. */
  lemma StaysAt(p: Program, i: nat)
    requires p.Valid() && i < p.Count() && Removed(p, i)
    ensures New(p, i + 1) == New(p, i)
  {
  }

  /** Deleting instruction i by moving at least the rest of the code down over it. */
  lemma RemoveStep(p: Program, d: seq<byte>, i: nat, n: nat)
    requires p.Valid() && |p.code| < BUFFER_SIZE && i < p.Count() && |p.code| <= |d|
    requires Scanned(p, d, i) && Removed(p, i)
    requires |p.code| - p.at[i + 1] <= n && New(p, i) + p.Size(i) + n <= |d|
    ensures Advanced(p, Moved(d, New(p, i), New(p, i) + p.Size(i), n), i)
  {
    hide Program.Valid, Program.Laid, Moved, Scanned, Advanced, New;
    p.Instruction(i);
    StaysAt(p, i);
    var a, m, rest := New(p, i), p.Size(i), |p.code| - p.at[i + 1];
    var e := Moved(d, a, a + m, n);
    MovedSlices(d, a, a + m, n, rest);
    TailBytes(p, d, i);
    AdvanceTo(p, d, e, i);
  }

  /** Stepping over an instruction that keeps its bytes, whether plain or a deferred jump. */
  lemma KeepStep(p: Program, d: seq<byte>, i: nat)
    requires p.Valid() && |p.code| < BUFFER_SIZE && i < p.Count() && |p.code| <= |d|
    requires Scanned(p, d, i) && !Removed(p, i) && (IsJump(p.Op(i)) ==> Deferred(p, i))
    ensures Advanced(p, d, i)
  {
    TailBytes(p, d, i);
    AdvanceTo(p, d, d, i);
  }

  /** Relocating a backward jump with the code records. */
  lemma RelocateStep(p: Program, d: seq<byte>, i: nat)
    requires p.Valid() && |p.code| < BUFFER_SIZE && i < p.Count() && |p.code| <= |d|
    requires Scanned(p, d, i) && IsJump(p.Op(i)) && !Removed(p, i) && p.at[p.to[i]] < New(p, i)
    ensures p.to[i] < i
    ensures Advanced(p, WithWord(d, New(p, i) + 1, Relocated(p, i)), i)
  {
    hide Program.Valid, Program.Laid, Scanned, Advanced, WithWord, Word, Relocated;
    p.Instruction(i);
    AheadIsAbove(p, i);
    TailBytes(p, d, i);
    var a, w := New(p, i), Relocated(p, i);
    var e := WithWord(d, a + 1, w);
    WithWordElsewhere(d, a + 1, w, 0, a);
    WithWordElsewhere(d, a + 1, w, a + 3, a + 3 + (|p.code| - p.at[i + 1]));
    AdvanceTo(p, d, e, i);
  }

  /** The bytes the scan reads at the start of instruction i decide as they do in p. */
  lemma ReadsInstruction(p: Program, d: seq<byte>, i: nat)
    requires p.Valid() && |p.code| < BUFFER_SIZE && i < p.Count() && |p.code| <= |d| && Scanned(p, d, i)
    ensures New(p, i) + p.Size(i) <= |d| && d[New(p, i)] == p.Op(i) && LengthAt(d, New(p, i)) == p.Size(i)
    ensures p.Op(i) == INS_LBL ==> p.Size(i) == d[New(p, i) + 1] as int + 2
    ensures IsJump(p.Op(i)) ==> p.Size(i) == 3 && Word(d, New(p, i) + 1) == p.at[p.to[i]]
    ensures IsJump(p.Op(i)) ==> (Removed(p, i) <==> p.at[p.to[i]] == p.at[i] + 3)
  {
    TailBytes(p, d, i);
    if IsJump(p.Op(i)) {
      assert p.Aims(i);
      SameStart(p, p.to[i], i + 1);
    }
  }

  /** The backpatching that ends each turn. */
  lemma BackpatchStep(p: Program, d: seq<byte>, i: nat) returns (e: seq<byte>)
    requires p.Valid() && |p.code| < BUFFER_SIZE && i < p.Count() && |p.code| <= |d| && Advanced(p, d, i)
    ensures forall r <- Queued(p, i + 1) :: r.opt_offset + 2 < |d|
    ensures e == Patch(d, Queued(p, i + 1), p.at[i + 1], New(p, i + 1)) && Scanned(p, e, i + 1)
  {
    hide Program.Valid, Program.Laid, Placed, Removed, Queued, Patch;
    p.Instruction(i);
    e := PatchSettles(p, d, i + 1, i, i + 1);
    var a := New(p, i + 1);
    SameSuffix(e, d, a, a + (|p.code| - p.at[i + 1]));
  }

  /** In the compacted code d, surviving instruction j sits at its new offset with its operand relocated. */
  ghost predicate Emitted(p: Program, d: seq<byte>, j: nat)
    requires p.Valid() && |p.code| < BUFFER_SIZE && j < p.Count()
  {
    var a, b := New(p, j), New(p, j) + p.Size(j);
    Removed(p, j) ||
    (b <= |d| && if IsJump(p.Op(j)) then d[a] == p.Op(j) && Word(d, a + 1) == Relocated(p, j)
                 else d[a..b] == p.code[p.at[j]..p.at[j + 1]])
  }

  /** The result of the whole scan. */
  ghost predicate Compacted(p: Program, d: seq<byte>)
    requires p.Valid() && |p.code| < BUFFER_SIZE
  {
    |d| == New(p, p.Count()) && forall j :: 0 <= j < p.Count() ==> Emitted(p, d, j)
  }

  lemma ScanEnds(p: Program, d: seq<byte>)
    requires p.Valid() && |p.code| < BUFFER_SIZE && |p.code| <= |d| && Scanned(p, d, p.Count())
    ensures Compacted(p, d[..New(p, p.Count())])
  {
    var n := New(p, p.Count());
    forall j | 0 <= j < p.Count()
      ensures Emitted(p, d[..n], j)
    {
      assert Placed(p, d, j, p.Count());
      NewIsMonotone(p, j, p.Count());
      var a, b := New(p, j), New(p, j) + p.Size(j);
      if !Removed(p, j) {
        assert d[..n][a..b] == d[a..b];
      }
    }
  }
}
