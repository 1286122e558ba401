/** Runs of midgard.c on memory: the bytes of a block stay as they are until the block itself is released. */
module HeapRuns {
  import opened Wrappers
  import opened HeapChain
  import opened Midgard

  /** The buffer a run leaves. */
  ghost function ImageAfter(m: seq<int>, c: Chain, calls: seq<Call>): seq<int>
    requires c.Valid()
    decreases |calls|
  {
    if calls == [] then m else ImageAfter(Image(m, c, calls[0]), Then(c, calls[0]), calls[1..])
  }

  /** Every allocation of the run fits into the buffer. */
  ghost predicate RunHasRoom(m: seq<int>, c: Chain, calls: seq<Call>)
    requires c.Valid()
    decreases |calls|
  {
    calls == [] || (HasRoom(m, c, calls[0]) && RunHasRoom(Image(m, c, calls[0]), Then(c, calls[0]), calls[1..]))
  }

  /** The number block i has after a run, unless the run releases it. */
  ghost function Tracked(c: Chain, calls: seq<Call>, i: nat): Option<nat>
    requires c.Valid()
    decreases |calls|
  {
    if calls == [] then Some(i)
    else
      match Track(c, calls[0], i)
      case None => None
      case Some(j) => Tracked(Then(c, calls[0]), calls[1..], j)
  }

  /**
    Over every run of allocations, releases and shifts the buffer stays the image of the chain, and a
    block that the run does not release keeps its size and its payload, wherever it now lies.
    */
  lemma {:induction false} PayloadsSurvive(m: seq<int>, c: Chain, calls: seq<Call>, i: nat)
    requires c.Valid() && Represents(m, c) && i < |c.blocks|
    requires SparesSentinel(c, calls) && RunHasRoom(m, c, calls)
    ensures Represents(ImageAfter(m, c, calls), After(c, calls))
    ensures var j := Tracked(c, calls, i);
            j.Some? ==> SameBlock(m, c, i, ImageAfter(m, c, calls), After(c, calls), j.value)
    decreases |calls|
  {
    hide Represents, Image, Track, Payload, Chain.Valid;
    if calls == [] {
      HeaderOf(m, c, i);
    } else {
      var call := calls[0];
      var n, d := Image(m, c, call), Then(c, call);
      CallRepresents(m, c, call);
      if Track(c, call, i).Some? {
        CallKeepsBlock(m, c, call, i);
        PayloadsSurvive(n, d, calls[1..], Track(c, call, i).value);
      } else {
        HeaderOf(n, d, 0);
        PayloadsSurvive(n, d, calls[1..], 0);
      }
    }
  }

  /** Two blocks that a run does not release stay two blocks, in the same order. */
  lemma {:induction false} OrderSurvives(c: Chain, calls: seq<Call>, i: nat, j: nat)
    requires c.Valid() && i < j && Tracked(c, calls, i).Some? && Tracked(c, calls, j).Some?
    ensures Tracked(c, calls, i).value < Tracked(c, calls, j).value
    decreases |calls|
  {
    if calls != [] {
      OrderSurvives(Then(c, calls[0]), calls[1..], Track(c, calls[0], i).value, Track(c, calls[0], j).value);
    }
  }

  // ---------- what the words of these theorems mean ----------

  /** A call loses block i if and only if it releases its address; the root is never lost. */
  lemma TrackIs(c: Chain, call: Call, i: nat)
    requires c.Valid() && i < |c.blocks|
    ensures Track(c, call, i).None? <==> call.DoFree? && i > 0 && call.a == c.blocks[i].at
    ensures var d, x := Apply(c, call), Track(c, call, i);
      x.Some? ==>
        && x.value < |d.blocks| && d.blocks[x.value].size == c.blocks[i].size
        && (!call.DoShift? ==> d.blocks[x.value] == c.blocks[i])
  {
    match call
    case DoAlloc(size) =>
    case DoFree(a) => FoundIs(c, a, i);
    case DoShift(k) => if k < |c.blocks| { c.ShiftKeepsValid(k); }
  }

  lemma FoundIs(c: Chain, a: int, i: nat)
    requires c.Valid() && i < |c.blocks|
    ensures c.Find(a, 1) == i <==> i > 0 && a == c.blocks[i].at
  {
    var k := c.Find(a, 1);
    if k < i && k < |c.blocks| { c.Ordered(k, i); }
    if i < k < |c.blocks| { c.Ordered(i, k); }
  }

  /** A call that a run makes when it has come to chain c. */
  ghost predicate Releases(c: Chain, call: Call, i: nat) {
    call.DoFree? && 0 < i < |c.blocks| && call.a == c.blocks[i].at
  }

  /** Call k of the run releases what was block i at its start. */
  ghost predicate ReleasedBy(c: Chain, calls: seq<Call>, i: nat, k: nat)
    requires c.Valid() && k < |calls|
  {
    var x := Tracked(c, calls[..k], i);
    x.Some? && Releases(After(c, calls[..k]), calls[k], x.value)
  }

  lemma TrackedNext(c: Chain, calls: seq<Call>, i: nat, j: nat, k: nat)
    requires c.Valid() && calls != [] && k + 1 < |calls| && Track(c, calls[0], i) == Some(j)
    ensures ReleasedBy(c, calls, i, k + 1) == ReleasedBy(Then(c, calls[0]), calls[1..], j, k)
  {
    assert calls[..k + 1][1..] == calls[1..][..k] && calls[..k + 1][0] == calls[0];
  }

  /** A run loses a block if and only if one of its calls releases it. */
  lemma {:induction false} LostIsReleased(c: Chain, calls: seq<Call>, i: nat)
    requires c.Valid() && i < |c.blocks|
    ensures Tracked(c, calls, i).None? <==> exists k: nat :: k < |calls| && ReleasedBy(c, calls, i, k)
    decreases |calls|
  {
    hide Track, Releases;
    if calls != [] {
      FirstRelease(c, calls, i);
      if Track(c, calls[0], i).Some? {
        var d, j, rest := Then(c, calls[0]), Track(c, calls[0], i).value, calls[1..];
        TrackIs(c, calls[0], i);
        LostIsReleased(d, rest, j);
        if k: nat :| k < |calls| && ReleasedBy(c, calls, i, k) {
          TrackedNext(c, calls, i, j, k - 1);
          assert ReleasedBy(d, rest, j, k - 1);
        }
        if k: nat :| k < |rest| && ReleasedBy(d, rest, j, k) {
          TrackedNext(c, calls, i, j, k);
          assert ReleasedBy(c, calls, i, k + 1);
        }
      }
    }
  }

  lemma FirstRelease(c: Chain, calls: seq<Call>, i: nat)
    requires c.Valid() && i < |c.blocks| && calls != []
    ensures ReleasedBy(c, calls, i, 0) <==> Track(c, calls[0], i).None?
  {
    TrackIs(c, calls[0], i);
    assert calls[..0] == [];
  }

  /** The addresses handed out are those of the blocks that the allocations of the run add. */
  lemma {:induction false} HandedOutIs(c: Chain, calls: seq<Call>, a: nat)
    requires c.Valid()
    ensures a in HandedOut(c, calls) <==> exists k: nat :: k < |calls| && AllocatedBy(c, calls, k, a)
    decreases |calls|
  {
    if calls != [] {
      var d, rest := Then(c, calls[0]), calls[1..];
      HandedOutIs(d, rest, a);
      assert calls[..0] == [];
      if k: nat :| k < |calls| && AllocatedBy(c, calls, k, a) {
        if k > 0 {
          AllocatedNext(c, calls, k - 1, a);
          assert AllocatedBy(d, rest, k - 1, a);
        }
      }
      if k: nat :| k < |rest| && AllocatedBy(d, rest, k, a) {
        AllocatedNext(c, calls, k, a);
        assert AllocatedBy(c, calls, k + 1, a);
      }
      if calls[0].DoAlloc? && c.Added(calls[0].size).at == a {
        assert AllocatedBy(c, calls, 0, a);
      }
    }
  }

  ghost predicate AllocatedBy(c: Chain, calls: seq<Call>, k: nat, a: nat)
    requires c.Valid() && k < |calls|
  {
    calls[k].DoAlloc? && After(c, calls[..k]).Added(calls[k].size).at == a
  }

  lemma AllocatedNext(c: Chain, calls: seq<Call>, k: nat, a: nat)
    requires c.Valid() && calls != [] && k + 1 < |calls|
    ensures AllocatedBy(c, calls, k + 1, a) == AllocatedBy(Then(c, calls[0]), calls[1..], k, a)
  {
    assert calls[..k + 1][1..] == calls[1..][..k] && calls[..k + 1][0] == calls[0];
  }

  /** A run spares the sentinel if and only if none of its calls releases the address where it then lies. */
  lemma {:induction false} SparesIs(c: Chain, calls: seq<Call>)
    requires c.Valid()
    ensures SparesSentinel(c, calls) <==> forall k: nat :: k < |calls| ==> SparedBy(c, calls, k)
    decreases |calls|
  {
    if calls != [] {
      var d, rest := Then(c, calls[0]), calls[1..];
      SparesIs(d, rest);
      assert calls[..0] == [];
      assert SparedBy(c, calls, 0) <==> (calls[0].DoFree? ==> calls[0].a != c.end);
      if SparesSentinel(c, calls) {
        forall k: nat | k < |calls|
          ensures SparedBy(c, calls, k)
        {
          if k > 0 { SparedNext(c, calls, k - 1); }
        }
      }
      if forall k: nat :: k < |calls| ==> SparedBy(c, calls, k) {
        forall k: nat | k < |rest|
          ensures SparedBy(d, rest, k)
        {
          SparedNext(c, calls, k);
          assert SparedBy(c, calls, k + 1);
        }
      }
    }
  }

  ghost predicate SparedBy(c: Chain, calls: seq<Call>, k: nat)
    requires c.Valid() && k < |calls|
  {
    calls[k].DoFree? ==> calls[k].a != After(c, calls[..k]).end
  }

  lemma SparedNext(c: Chain, calls: seq<Call>, k: nat)
    requires c.Valid() && calls != [] && k + 1 < |calls|
    ensures SparedBy(c, calls, k + 1) == SparedBy(Then(c, calls[0]), calls[1..], k)
  {
    assert calls[..k + 1][1..] == calls[1..][..k] && calls[..k + 1][0] == calls[0];
  }
}
