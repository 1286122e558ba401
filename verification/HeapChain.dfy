/** The block list of midgard.c on values: headers in address order, gaps between them, a sentinel at the end. */
module HeapChain {

  /** alloc_chain: a header at `at` followed by `size` units of payload. */
  datatype Block = Block(at: nat, size: nat)

  /** The blocks from the root on, the address of the sentinel, and the header size h. */
  datatype Chain = Chain(h: nat, blocks: seq<Block>, end: nat) {

    function EndOf(i: nat): nat
      requires i < |blocks|
    {
      blocks[i].at + h + blocks[i].size
    }

    function NextOf(i: nat): nat
      requires i < |blocks|
    {
      if i + 1 < |blocks| then blocks[i + 1].at else end
    }

    ghost predicate Valid() {
      && h >= 2 && |blocks| >= 1 && blocks[0] == Block(0, 0)
      && forall i :: 0 <= i < |blocks| ==> EndOf(i) <= NextOf(i)
    }

    /** The gap behind block i holds a header and `size` units. */
    predicate Fits(i: nat, size: nat)
      requires i < |blocks|
    {
      NextOf(i) >= EndOf(i) + (h + size)
    }

    /** The first block at or after i with a large enough gap behind it, or |blocks|. */
    function FirstFit(size: nat, i: nat): (k: nat)
      requires i <= |blocks|
      ensures i <= k <= |blocks|
      ensures k < |blocks| ==> Fits(k, size)
      ensures forall j :: i <= j < k ==> !Fits(j, size)
      decreases |blocks| - i
    {
      if i == |blocks| then i else if Fits(i, size) then i else FirstFit(size, i + 1)
    }

    /** m_alloc: the new block, at the first fit or else where the sentinel was. */
    function Added(size: nat): Block
      requires |blocks| >= 1
    {
      var k := FirstFit(size, 0);
      Block(if k < |blocks| then EndOf(k) else end, size)
    }

    function Alloc(size: nat): Chain
      requires |blocks| >= 1
    {
      var k := FirstFit(size, 0);
      if k < |blocks| then Chain(h, blocks[..k + 1] + [Added(size)] + blocks[k + 1..], end)
      else Chain(h, blocks + [Added(size)], end + h + size)
    }

    /** The number of the block headed at address a, or |blocks| if there is none from i on. */
    function Find(a: int, i: nat): (k: nat)
      requires i <= |blocks|
      ensures i <= k <= |blocks|
      ensures k < |blocks| ==> blocks[k].at == a
      ensures forall j :: i <= j < k ==> blocks[j].at != a
      decreases |blocks| - i
    {
      if i == |blocks| || blocks[i].at == a then i else Find(a, i + 1)
    }

    /** m_free of the block headed at a; the root is never found. */
    function Free(a: int): Chain
      requires |blocks| >= 1
    {
      var k := Find(a, 1);
      if k < |blocks| then Chain(h, blocks[..k] + blocks[k + 1..], end) else this
    }

    /** m_shift_next_chunk: what follows block i moves up against it. */
    function Shift(i: nat): Chain
      requires i < |blocks|
    {
      if i + 1 < |blocks| then Chain(h, blocks[i + 1 := Block(EndOf(i), blocks[i + 1].size)], end)
      else Chain(h, blocks, EndOf(i))
    }

    /** Total payload of all blocks. */
    function Allocated(): nat {
      Total(blocks)
    }

    /** The extents of the blocks, headers included, are pairwise disjoint and below the sentinel. */
    ghost predicate Disjoint() {
      forall i, j :: 0 <= i < j < |blocks| ==> EndOf(i) <= blocks[j].at < end
    }

    // ---------- properties ----------

    /** Blocks lie behind each other. */
    lemma {:induction false} Ordered(i: nat, j: nat)
      requires Valid() && i < j < |blocks|
      ensures EndOf(i) <= blocks[j].at && EndOf(j) <= end
      ensures blocks[i].at < blocks[j].at < end
      decreases |blocks| - i, j
    {
      assert EndOf(i) <= NextOf(i) && EndOf(j) <= NextOf(j);
      if i + 1 < j {
        Ordered(i + 1, j);
      } else if j + 1 < |blocks| {
        Ordered(j, j + 1);
      }
    }

    lemma ValidIsDisjoint()
      requires Valid()
      ensures Disjoint()
    {
      forall i, j | 0 <= i < j < |blocks|
        ensures EndOf(i) <= blocks[j].at < end
      {
        Ordered(i, j);
      }
    }

    lemma BeforeEnd(i: nat)
      requires Valid() && i < |blocks|
      ensures EndOf(i) <= end
    {
      assert EndOf(i) <= NextOf(i);
      if i + 1 < |blocks| { Ordered(i, i + 1); }
    }

    lemma AllocKeepsValid(size: nat)
      requires Valid()
      ensures Alloc(size).Valid()
      ensures Alloc(size).end >= end
    {
      var k, c := FirstFit(size, 0), Alloc(size);
      forall i | 0 <= i < |c.blocks|
        ensures c.EndOf(i) <= c.NextOf(i)
      {
        if i <= k {
          if i < |blocks| { assert EndOf(i) <= NextOf(i); }
        } else if i > k + 1 {
          assert EndOf(i - 1) <= NextOf(i - 1);
        }
      }
    }

    /** Exactly the new block comes in, in address order. */
    lemma AllocAddsOne(size: nat)
      requires Valid()
      ensures multiset(Alloc(size).blocks) == multiset(blocks) + multiset{Added(size)}
      ensures Alloc(size).Allocated() == Allocated() + size
    {
      var k := FirstFit(size, 0);
      if k < |blocks| {
        assert blocks == blocks[..k + 1] + blocks[k + 1..];
        TotalOfSum(blocks[..k + 1] + [Added(size)], blocks[k + 1..]);
        TotalOfSum(blocks[..k + 1], [Added(size)]);
        TotalOfSum(blocks[..k + 1], blocks[k + 1..]);
      } else {
        TotalOfSum(blocks, [Added(size)]);
      }
    }

    /** The new block takes the lowest address at which a header and `size` units are free behind some block. */
    lemma AllocIsLowest(size: nat, i: nat)
      requires Valid() && i < |blocks| && Fits(i, size)
      ensures Added(size).at <= EndOf(i)
    {
      var k := FirstFit(size, 0);
      if k < i { Ordered(k, i); }
    }

    lemma FreeKeepsValid(a: int)
      requires Valid()
      ensures Free(a).Valid() && Free(a).end == end
    {
      var k, c := Find(a, 1), Free(a);
      forall i | 0 <= i < |c.blocks|
        ensures c.EndOf(i) <= c.NextOf(i)
      {
        assert EndOf(i) <= NextOf(i);
        if k < |blocks| {
          assert EndOf(k) <= NextOf(k);
          if k <= i { assert EndOf(i + 1) <= NextOf(i + 1); }
        }
      }
    }

    /** Exactly the named block goes. */
    lemma FreeRemovesOne(a: int)
      requires Valid()
      ensures var k := Find(a, 1);
        if k < |blocks| then
          && multiset(blocks) == multiset(Free(a).blocks) + multiset{blocks[k]}
          && Allocated() == Free(a).Allocated() + blocks[k].size
        else Free(a) == this
    {
      var k := Find(a, 1);
      if k < |blocks| {
        assert blocks == blocks[..k] + ([blocks[k]] + blocks[k + 1..]);
        TotalOfSum(blocks[..k], [blocks[k]] + blocks[k + 1..]);
        TotalOfSum([blocks[k]], blocks[k + 1..]);
        TotalOfSum(blocks[..k], blocks[k + 1..]);
      }
    }

    /** Freeing what was just allocated restores the chain unless the sentinel moved. */
    lemma FreeUndoesAlloc(size: nat)
      requires Valid()
      ensures Alloc(size).Free(Added(size).at) == Chain(h, blocks, Alloc(size).end)
    {
      var k, c, b := FirstFit(size, 0), Alloc(size), Added(size);
      AllocKeepsValid(size);
      var m := if k < |blocks| then k + 1 else |blocks|;
      assert c.blocks[m] == b;
      var f := c.Find(b.at, 1);
      if f < m { c.Ordered(f, m); }
      assert f == m;
      assert c.blocks[..m] + c.blocks[m + 1..] == blocks;
    }

    lemma ShiftKeepsValid(i: nat)
      requires Valid() && i < |blocks|
      ensures Shift(i).Valid() && Shift(i).end <= end && Shift(i).Allocated() == Allocated()
      ensures |Shift(i).blocks| == |blocks|
      ensures forall j :: 0 <= j < |blocks| ==> Shift(i).blocks[j].size == blocks[j].size
    {
      var c := Shift(i);
      forall j | 0 <= j < |c.blocks|
        ensures c.EndOf(j) <= c.NextOf(j)
      {
        assert EndOf(j) <= NextOf(j) && EndOf(i) <= NextOf(i);
      }
      assert EndOf(i) <= NextOf(i);
      if i + 1 < |blocks| {
        var b := c.blocks[i + 1];
        assert blocks == blocks[..i + 1] + ([blocks[i + 1]] + blocks[i + 2..]);
        assert c.blocks == blocks[..i + 1] + ([b] + blocks[i + 2..]);
        TotalOfSum(blocks[..i + 1], [blocks[i + 1]] + blocks[i + 2..]);
        TotalOfSum(blocks[..i + 1], [b] + blocks[i + 2..]);
      }
    }
  }

  function Total(blocks: seq<Block>): nat {
    if blocks == [] then 0 else blocks[0].size + Total(blocks[1..])
  }

  lemma {:induction false} TotalOfSum(a: seq<Block>, b: seq<Block>)
    ensures Total(a + b) == Total(a) + Total(b)
  {
    if a == [] {
      assert a + b == b;
    } else {
      TotalOfSum(a[1..], b);
      assert (a + b)[1..] == a[1..] + b;
    }
  }

  // ---------- whole runs ----------

  /** A call of m_alloc, of m_free with the payload behind header address a, or of m_shift_next_chunk on block i. */
  datatype Call = DoAlloc(size: nat) | DoFree(a: int) | DoShift(i: nat)

  function Apply(c: Chain, call: Call): Chain
    requires |c.blocks| >= 1
  {
    match call
    case DoAlloc(size) => c.Alloc(size)
    case DoFree(a) => c.Free(a)
    case DoShift(i) => if i < |c.blocks| then c.Shift(i) else c
  }

  lemma ApplyKeepsValid(c: Chain, call: Call)
    requires c.Valid()
    ensures Apply(c, call).Valid() && Apply(c, call).h == c.h
    ensures !call.DoShift? ==> Apply(c, call).end >= c.end
    ensures call.DoAlloc? ==> c.Added(call.size).at < Apply(c, call).end
  {
    match call
    case DoAlloc(size) =>
      c.AllocKeepsValid(size);
      var k := c.FirstFit(size, 0);
      if k < |c.blocks| {
        c.BeforeEnd(k);
        if k + 1 < |c.blocks| { c.BeforeEnd(k + 1); }
      }
    case DoFree(a) =>
      c.FreeKeepsValid(a);
    case DoShift(i) =>
      if i < |c.blocks| { c.ShiftKeepsValid(i); }
  }

  /** The chain after a call, which is valid again. */
  ghost function Then(c: Chain, call: Call): (d: Chain)
    requires c.Valid()
    ensures d.Valid() && d.h == c.h && d == Apply(c, call)
  {
    ApplyKeepsValid(c, call);
    Apply(c, call)
  }

  /** The chain a run ends in. */
  ghost function After(c: Chain, calls: seq<Call>): (d: Chain)
    requires c.Valid()
    ensures d.Valid() && d.h == c.h
    decreases |calls|
  {
    if calls == [] then c else After(Then(c, calls[0]), calls[1..])
  }

  /** No call of the run releases the address of the sentinel, which m_free would unlink. */
  ghost predicate SparesSentinel(c: Chain, calls: seq<Call>)
    requires c.Valid()
    decreases |calls|
  {
    calls == [] || ((calls[0].DoFree? ==> calls[0].a != c.end) && SparesSentinel(Then(c, calls[0]), calls[1..]))
  }

  /** The header addresses that a run hands out. */
  ghost function HandedOut(c: Chain, calls: seq<Call>): set<nat>
    requires c.Valid()
    decreases |calls|
  {
    if calls == [] then {}
    else
      (if calls[0].DoAlloc? then {c.Added(calls[0].size).at} else {}) + HandedOut(Then(c, calls[0]), calls[1..])
  }

  /** Units allocated minus units freed by the calls of a run. */
  ghost function Balance(c: Chain, calls: seq<Call>): int
    requires c.Valid()
    decreases |calls|
  {
    if calls == [] then 0
    else
      var k := if calls[0].DoFree? then c.Find(calls[0].a, 1) else 0;
      (match calls[0]
       case DoAlloc(size) => size as int
       case DoFree(a) => if k < |c.blocks| then 0 - c.blocks[k].size as int else 0
       case DoShift(_) => 0)
      + Balance(Then(c, calls[0]), calls[1..])
  }

  ghost predicate Unshifted(calls: seq<Call>) {
    forall call <- calls :: !call.DoShift?
  }

  /**
    Every run of m_alloc, m_free and m_shift_next_chunk keeps the blocks pairwise disjoint and below the
    sentinel, and loses or invents no space; unless blocks are shifted it keeps every pointer it ever
    handed out off the sentinel.
    */
  lemma {:induction false} RunsAreSafe(c: Chain, calls: seq<Call>)
    requires c.Valid() && SparesSentinel(c, calls)
    ensures var d := After(c, calls);
      && d.Disjoint()
      && d.Allocated() == c.Allocated() + Balance(c, calls)
      && (Unshifted(calls) ==> c.end <= d.end && forall a <- HandedOut(c, calls) :: a < d.end)
    decreases |calls|
  {
    if calls == [] {
      c.ValidIsDisjoint();
    } else {
      ApplyKeepsValid(c, calls[0]);
      RunsAreSafe(Then(c, calls[0]), calls[1..]);
      match calls[0]
      case DoAlloc(size) => c.AllocAddsOne(size);
      case DoFree(a) => c.FreeRemovesOne(a);
      case DoShift(i) => if i < |c.blocks| { c.ShiftKeepsValid(i); }
    }
  }

  /** Every release is of a pointer in `known` or of one handed out earlier in the run, be it released already. */
  ghost predicate FreesWhatItGot(c: Chain, calls: seq<Call>, known: set<nat>)
    requires c.Valid()
    decreases |calls|
  {
    calls == [] ||
    (&& (calls[0].DoFree? ==> calls[0].a in known)
     && FreesWhatItGot(Then(c, calls[0]), calls[1..],
                       known + if calls[0].DoAlloc? then {c.Added(calls[0].size).at} else {}))
  }

  /** A program that releases only what it was handed out, even twice, never releases the sentinel. */
  lemma {:induction false} GotIsNotSentinel(c: Chain, calls: seq<Call>, known: set<nat>)
    requires c.Valid() && Unshifted(calls) && FreesWhatItGot(c, calls, known) && forall a <- known :: a < c.end
    ensures SparesSentinel(c, calls)
    decreases |calls|
  {
    if calls != [] {
      ApplyKeepsValid(c, calls[0]);
      GotIsNotSentinel(Then(c, calls[0]), calls[1..],
                       known + if calls[0].DoAlloc? then {c.Added(calls[0].size).at} else {});
    }
  }
}
