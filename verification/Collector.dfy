/** vm_garbage_collect: its compaction step, which redirects the slots that refer to a shifted chunk, and its loop. */
module Collector {
  import opened Bytes
  import opened Wrappers
  import opened HeapChain
  import opened Midgard
  import StackMachine

  const VM_MAGIC_MASK_ZERO := StackMachine.VM_MAGIC + 0x0F

  /** Slot value s is a pointer to the payload of block j. */
  ghost predicate PointsTo(c: Chain, s: int, j: nat) {
    j < |c.blocks| && s == c.blocks[j].at + c.h
  }

  /** vm_update_mutator */
  method UpdateMutator(slots: array<int>, old_addr: int, new_addr: int)
    modifies slots
    ensures forall k :: 0 <= k < slots.Length ==>
      slots[k] == if old(slots[k]) == old_addr then new_addr else old(slots[k])
  {
    for i := 0 to slots.Length
      invariant forall k :: i <= k < slots.Length ==> slots[k] == old(slots[k])
      invariant forall k :: 0 <= k < i ==> slots[k] == if old(slots[k]) == old_addr then new_addr else old(slots[k])
    {
      if slots[i] == old_addr {
        slots[i] := new_addr;
      }
    }
  }

  /** Pointers to different blocks differ. */
  lemma PointersAreDistinct(c: Chain, s: int, i: nat, j: nat)
    requires c.Valid() && PointsTo(c, s, i) && PointsTo(c, s, j)
    ensures i == j
  {
    if i < j { c.Ordered(i, j); }
    if j < i { c.Ordered(j, i); }
  }

  /** Every block keeps its number, its size and its payload, and slots refer to the same blocks. */
  ghost predicate Carries(m: seq<int>, c: Chain, s: seq<int>, n: seq<int>, d: Chain, t: seq<int>) {
    && |d.blocks| == |c.blocks| && |t| == |s|
    && (forall j :: 0 <= j < |c.blocks| ==> SameBlock(m, c, j, n, d, j))
    && forall k, j :: 0 <= k < |s| && PointsTo(c, s[k], j) ==> PointsTo(d, t[k], j)
  }

  /**
    Shifting the chunk behind block i keeps every reference: a slot that pointed to block j points to
    block j still, wherever it now lies, and the block's contents are the same.
    */
  method ShiftAndRedirect(heap: Heap, slots: array<int>, chunk: nat, ghost i: nat) returns (next: int)
    requires heap.Valid() && slots != heap.mem
    requires i + 1 < |heap.chain.blocks| && heap.chain.blocks[i + 1].size > 0 && PointsTo(heap.chain, chunk, i)
    modifies heap`chain, heap.mem, slots
    ensures heap.Valid() && heap.chain == old(heap.chain).Shift(i)
    ensures Carries(old(heap.mem[..]), old(heap.chain), old(slots[..]), heap.mem[..], heap.chain, slots[..])
    ensures heap.chain.EndOf(i) == heap.chain.NextOf(i) && PointsTo(heap.chain, next, i + 1)
  {
    hide Represents, Payload;
    ghost var c := heap.chain;
    ghost var was := slots[..];
    HeaderOf(heap.mem[..], c, i);
    var nextchunk := heap.NextChunk(chunk, i);
    var shifted := heap.ShiftNextChunk(chunk, i);
    next := nextchunk;
    if shifted != nextchunk {
      UpdateMutator(slots, nextchunk, shifted);
      next := shifted;
    }
    forall k, j | 0 <= k < slots.Length && PointsTo(c, was[k], j)
      ensures PointsTo(heap.chain, slots[k], j)
    {
      if was[k] == nextchunk { PointersAreDistinct(c, nextchunk, i + 1, j); }
    }
  }

  // ---------- what a collection does ----------

  /** The collector takes block j for an object without holders: the first byte of its payload is 0x8F. */
  predicate Marked(m: seq<int>, c: Chain, j: nat) {
    && j < |c.blocks| && c.blocks[j].size > 0 && c.EndOf(j) <= |m|
    && Payload(m, c, j)[0] == VM_MAGIC_MASK_ZERO
  }

  /** (mgc_refcount & VM_MAGIC_MASK_ZERO) == VM_MAGIC */
  predicate Movable(mgc: int) {
    mgc / 0x80 % 2 == 1 && mgc % 0x10 == 0
  }

  /** The test of the source on the byte. */
  lemma MovableIs(mgc: bv8)
    ensures Movable(mgc as int) <==> mgc & 0x8F == 0x80
  {
  }

  /** How many of the first o blocks are marked. */
  function Freed(m: seq<int>, c: Chain, o: nat): (r: nat)
    ensures r <= o
    ensures 0 < o && !Marked(m, c, 0) ==> r < o
  {
    if o == 0 then 0 else Freed(m, c, o - 1) + if Marked(m, c, o - 1) then 1 else 0
  }

  /** The number of block j when the first o blocks have been visited, unless it was freed. */
  function Place(m: seq<int>, c: Chain, o: nat, j: nat): Option<nat> {
    if j < o && Marked(m, c, j) then None else Some(j - Freed(m, c, if j < o then j else o))
  }

  /** The block from o on at which the loop ends: the last one, or one in front of an empty one. */
  function Last(c: Chain, o: nat): nat
    decreases |c.blocks| - o
  {
    if o + 1 < |c.blocks| && c.blocks[o + 1].size > 0 then Last(c, o + 1) else o
  }

  /** Block j of (m, c) is block Place(j) of (n, d), and slots refer to the same blocks. */
  ghost predicate Kept(m: seq<int>, c: Chain, s: seq<int>, n: seq<int>, d: Chain, t: seq<int>, o: nat, j: nat) {
    var x := Place(m, c, o, j);
    x.Some? ==>
      && SameBlock(m, c, j, n, d, x.value)
      && |t| == |s| && forall k :: 0 <= k < |s| && PointsTo(c, s[k], j) ==> PointsTo(d, t[k], x.value)
  }

  ghost predicate Collected(m: seq<int>, c: Chain, s: seq<int>, n: seq<int>, d: Chain, t: seq<int>, o: nat) {
    && |d.blocks| == |c.blocks| - Freed(m, c, o)
    && forall j :: 0 <= j < |c.blocks| ==> Kept(m, c, s, n, d, t, o, j)
  }

  /** The gap in front of block j is closed when the loop comes to it. */
  predicate Closes(m: seq<int>, c: Chain, j: nat) {
    && 0 < j < |c.blocks| && c.blocks[j].size > 0 && c.EndOf(j) <= |m|
    && Movable(Payload(m, c, j)[0])
  }

  /** Where block j lies when the loop has come to it: behind the block in front, or where it was. */
  function NewAt(m: seq<int>, c: Chain, j: nat): nat
    requires j < |c.blocks|
  {
    if Closes(m, c, j) then NewAt(m, c, j - 1) + c.h + c.blocks[j - 1].size else c.blocks[j].at
  }

  /** With o blocks visited and the gaps in front of the first n blocks dealt with, block j lies where it should. */
  ghost predicate LiesAt(m: seq<int>, c: Chain, d: Chain, o: nat, n: nat, j: nat)
    requires j < |c.blocks|
  {
    var x := Place(m, c, o, j);
    x.Some? ==> x.value < |d.blocks| && d.blocks[x.value].at == if j <= n then NewAt(m, c, j) else c.blocks[j].at
  }

  ghost predicate Lies(m: seq<int>, c: Chain, d: Chain, o: nat, n: nat) {
    d.h == c.h && forall j :: 0 <= j < |c.blocks| ==> LiesAt(m, c, d, o, n, j)
  }

  // ---------- one turn ----------

  lemma SameBlocks(m: seq<int>, c: Chain, i: nat, n: seq<int>, d: Chain, j: nat, l: seq<int>, e: Chain, k: nat)
    requires SameBlock(m, c, i, n, d, j) && SameBlock(n, d, j, l, e, k)
    ensures SameBlock(m, c, i, l, e, k)
  {
  }

  lemma SameMark(m: seq<int>, c: Chain, i: nat, n: seq<int>, d: Chain, j: nat)
    requires SameBlock(m, c, i, n, d, j)
    ensures Marked(m, c, i) <==> Marked(n, d, j)
  {
  }

  /** The buffers differ in the payload of block i at most. */
  ghost predicate Overwritten(m: seq<int>, n: seq<int>, c: Chain, i: nat)
    requires i < |c.blocks|
  {
    && |n| == |m| && c.EndOf(i) <= |m|
    && forall q :: 0 <= q < |m| && (q < c.blocks[i].at + c.h || c.EndOf(i) <= q) ==> n[q] == m[q]
  }

  lemma OverwrittenBlock(m: seq<int>, n: seq<int>, c: Chain, i: nat, j: nat)
    requires Represents(m, c) && i < |c.blocks| && Overwritten(m, n, c, i) && j < |c.blocks|
    ensures HeaderAt(n, c, j) && (j != i || c.blocks[i].size == 0 ==> SameBlock(m, c, j, n, c, j))
  {
    hide Represents, Chain.Valid;
    HeaderOf(m, c, i);
    HeaderOf(m, c, j);
    if i < j { c.Ordered(i, j); }
    if j < i { c.Ordered(j, i); }
    c.BeforeEnd(j);
  }

  /** Whatever is written into the payload of a block, the buffer holds the same chain. */
  lemma OverwrittenRepresents(m: seq<int>, n: seq<int>, c: Chain, i: nat)
    requires Represents(m, c) && i < |c.blocks| && Overwritten(m, n, c, i)
    ensures Represents(n, c)
    ensures forall j :: 0 <= j < |c.blocks| && (j != i || c.blocks[i].size == 0) ==> SameBlock(m, c, j, n, c, j)
  {
    hide HeaderAt, SameBlock, Chain.Valid;
    HeaderOf(m, c, i);
    c.BeforeEnd(i);
    forall j | 0 <= j < |c.blocks|
      ensures HeaderAt(n, c, j) && (j != i || c.blocks[i].size == 0 ==> SameBlock(m, c, j, n, c, j))
    {
      OverwrittenBlock(m, n, c, i, j);
    }
  }

  /** Releasing block i; the root is never found. */
  lemma FreedNumber(c: Chain, i: nat)
    requires c.Valid() && i < |c.blocks|
    ensures c.Find(c.blocks[i].at, 1) == (if i == 0 then |c.blocks| else i) && c.blocks[i].at != c.end
  {
    hide Chain.Valid;
    var k := c.Find(c.blocks[i].at, 1);
    if k < |c.blocks| {
      if k < i { c.Ordered(k, i); }
      if i < k { c.Ordered(i, k); }
    }
    c.BeforeEnd(i);
    assert c.h >= 2 by { Positive(c); }
  }

  lemma Positive(c: Chain)
    requires c.Valid()
    ensures c.h >= 2 && |c.blocks| >= 1 && c.blocks[0] == Block(0, 0)
  {
  }

  function Down(i: nat, j: nat): nat {
    if i < j then j - 1 else j
  }

  /** Block i goes, all others stay where they are. */
  ghost predicate Drops(m: seq<int>, c: Chain, n: seq<int>, d: Chain, i: nat) {
    && i < |c.blocks| == |d.blocks| + 1 && d.h == c.h
    && forall j :: 0 <= j < |c.blocks| && j != i ==>
         SameBlock(m, c, j, n, d, Down(i, j)) && d.blocks[Down(i, j)] == c.blocks[j]
  }

  /** What m_free of block i does to a chain. */
  lemma ReleasedBlock(m: seq<int>, c: Chain, i: nat)
    requires Represents(m, c) && 0 < i < |c.blocks|
    ensures var a := c.blocks[i].at; Drops(m, c, Midgard.Image(m, c, DoFree(a)), c.Free(a), i)
  {
    hide Represents, Chain.Valid, SameBlock, Midgard.Image;
    HeaderOf(m, c, i);
    FreedNumber(c, i);
    var a := c.blocks[i].at;
    var n, d := Midgard.Image(m, c, DoFree(a)), c.Free(a);
    forall j | 0 <= j < |c.blocks| && j != i
      ensures SameBlock(m, c, j, n, d, Down(i, j))
    {
      CallKeepsBlock(m, c, DoFree(a), j);
    }
  }

  lemma DropsAfter(m: seq<int>, n: seq<int>, c: Chain, l: seq<int>, d: Chain, i: nat)
    requires Drops(n, c, l, d, i)
    requires forall j :: 0 <= j < |c.blocks| && j != i ==> SameBlock(m, c, j, n, c, j)
    ensures Drops(m, c, l, d, i)
  {
    hide SameBlock;
    forall j | 0 <= j < |c.blocks| && j != i
      ensures SameBlock(m, c, j, l, d, Down(i, j))
    {
      SameBlocks(m, c, j, n, c, j, l, d, Down(i, j));
    }
  }

  /** memset over a chunk and m_free of it. */
  method Release(heap: Heap, candidate: nat, ghost i: nat)
    requires heap.Valid() && i < |heap.chain.blocks| && candidate == heap.chain.blocks[i].at + heap.h
    modifies heap`chain, heap.mem
    ensures heap.Valid()
    ensures i == 0 ==> heap.chain == old(heap.chain)
    ensures i == 0 ==> forall s: seq<int> ::
      Carries(old(heap.mem[..]), old(heap.chain), s, heap.mem[..], heap.chain, s)
    ensures i > 0 ==> Drops(old(heap.mem[..]), old(heap.chain), heap.mem[..], heap.chain, i)
  {
    hide Represents, SameBlock, SamePayloads, Midgard.Image, Severed, Chain.Free, Chain.Valid, Chain.Find, Drops;
    ghost var m, c := heap.mem[..], heap.chain;
    HeaderOf(m, c, i);
    FreedNumber(c, i);
    Positive(c);
    Clear(heap, candidate, i);
    ghost var n := heap.mem[..];
    OverwrittenRepresents(m, n, c, i);
    heap.Free(candidate);
    if i > 0 {
      ReleasedBlock(n, c, i);
      DropsAfter(m, n, c, heap.mem[..], heap.chain, i);
    } else {
      NothingFreed(n, c, 0);
    }
  }

  /** memset(candidate, 0, m_size_chunk(candidate)) */
  method Clear(heap: Heap, candidate: nat, ghost i: nat)
    requires heap.Valid() && i < |heap.chain.blocks| && candidate == heap.chain.blocks[i].at + heap.h
    modifies heap.mem
    ensures Overwritten(old(heap.mem[..]), heap.mem[..], heap.chain, i)
  {
    hide Represents;
    ghost var m := heap.mem[..];
    HeaderOf(m, heap.chain, i);
    var size := heap.mem[candidate - heap.h];
    for q := candidate to candidate + size
      invariant forall r :: 0 <= r < |m| && (r < candidate || candidate + size <= r) ==> heap.mem[r] == m[r]
    {
      heap.mem[q] := 0;
    }
  }

  // ---------- the collection so far ----------

  lemma NothingCollected(m: seq<int>, c: Chain, s: seq<int>)
    requires Represents(m, c)
    ensures Collected(m, c, s, m, c, s, 0) && Place(m, c, 0, 0) == Some(0)
  {
    hide Represents, Payload;
    forall j | 0 <= j < |c.blocks|
      ensures Kept(m, c, s, m, c, s, 0, j)
    {
      HeaderOf(m, c, j);
    }
  }

  lemma CarriedOn(m: seq<int>, c: Chain, s: seq<int>, n: seq<int>, d: Chain, t: seq<int>,
      l: seq<int>, e: Chain, r: seq<int>, o: nat)
    requires Collected(m, c, s, n, d, t, o) && Carries(n, d, t, l, e, r)
    ensures Collected(m, c, s, l, e, r, o)
  {
    hide SameBlock, Place, PointsTo, Freed;
    forall j | 0 <= j < |c.blocks|
      ensures Kept(m, c, s, l, e, r, o, j)
    {
      assert Kept(m, c, s, n, d, t, o, j);
      var x := Place(m, c, o, j);
      if x.Some? {
        NumberIsSmall(m, c, s, n, d, t, o, j);
        SameBlocks(m, c, j, n, d, x.value, l, e, x.value);
      }
    }
  }

  lemma NumberIsSmall(m: seq<int>, c: Chain, s: seq<int>, n: seq<int>, d: Chain, t: seq<int>, o: nat, j: nat)
    requires Kept(m, c, s, n, d, t, o, j) && Place(m, c, o, j).Some?
    ensures j < |c.blocks| && Place(m, c, o, j).value < |d.blocks|
  {
  }

  /** A block that is not marked stays. */
  lemma Visited(m: seq<int>, c: Chain, s: seq<int>, n: seq<int>, d: Chain, t: seq<int>, o: nat)
    requires Collected(m, c, s, n, d, t, o) && !Marked(m, c, o)
    ensures Collected(m, c, s, n, d, t, o + 1)
  {
    hide SameBlock, PointsTo, Marked;
    var next := o + 1;
    forall j | 0 <= j < |c.blocks|
      ensures Kept(m, c, s, n, d, t, next, j)
    {
      assert Kept(m, c, s, n, d, t, o, j);
    }
  }

  /** A marked block goes. */
  lemma Dropped(m: seq<int>, c: Chain, s: seq<int>, n: seq<int>, d: Chain, t: seq<int>, l: seq<int>, e: Chain, o: nat)
    requires Collected(m, c, s, n, d, t, o) && Marked(m, c, o) && Drops(n, d, l, e, o - Freed(m, c, o))
    ensures Collected(m, c, s, l, e, t, o + 1)
  {
    hide SameBlock, Marked;
    var i, next := o - Freed(m, c, o), o + 1;
    forall j | 0 <= j < |c.blocks|
      ensures Kept(m, c, s, l, e, t, next, j)
    {
      assert Kept(m, c, s, n, d, t, o, j);
      var x := Place(m, c, o + 1, j);
      if x.Some? {
        PlaceAfter(m, c, o, j);
        var y := Place(m, c, o, j).value;
        NumberIsSmall(m, c, s, n, d, t, o, j);
        SameBlocks(m, c, j, n, d, y, l, e, x.value);
      }
    }
  }

  lemma PlaceAfter(m: seq<int>, c: Chain, o: nat, j: nat)
    requires Marked(m, c, o) && Place(m, c, o + 1, j).Some?
    ensures Place(m, c, o, j).Some?
    ensures var i, y := o - Freed(m, c, o), Place(m, c, o, j).value; y != i && Place(m, c, o + 1, j).value == Down(i, y)
  {
    hide Marked;
    if j < o { FreedGrows(m, c, j, o); }
  }

  /** Visiting surviving block j brings the numbers one further. */
  lemma {:induction false} FreedGrows(m: seq<int>, c: Chain, j: nat, o: nat)
    requires j < o && !Marked(m, c, j)
    ensures j - Freed(m, c, j) < o - Freed(m, c, o)
    decreases o
  {
    hide Marked;
    if j + 1 < o { FreedGrows(m, c, j, o - 1); }
  }

  lemma LiesFirst(m: seq<int>, c: Chain)
    ensures Lies(m, c, c, 0, 0)
  {
    forall j | 0 <= j < |c.blocks|
      ensures LiesAt(m, c, c, 0, 0, j)
    {
      assert !Closes(m, c, 0);
    }
  }

  /** Different blocks have different numbers. */
  lemma NumbersDiffer(m: seq<int>, c: Chain, o: nat, j: nat)
    requires j != o + 1 && Place(m, c, o, j).Some?
    ensures Place(m, c, o, j).value != o + 1 - Freed(m, c, o)
  {
    hide Marked;
    if j < o { FreedGrows(m, c, j, o); }
  }

  lemma LiesShifted(m: seq<int>, c: Chain, d: Chain, o: nat)
    requires Lies(m, c, d, o, o) && Closes(m, c, o + 1)
    requires var i := o - Freed(m, c, o); i + 1 < |d.blocks| && d.blocks[i].size == c.blocks[o].size
    ensures Lies(m, c, d.Shift(o - Freed(m, c, o)), o, o + 1)
  {
    hide Marked, Closes, Freed;
    var i, next := o - Freed(m, c, o), o + 1;
    AfterShift(m, c, o);
    assert LiesAt(m, c, d, o, o, o);
    forall j | 0 <= j < |c.blocks|
      ensures LiesAt(m, c, d.Shift(i), o, next, j)
    {
      assert LiesAt(m, c, d, o, o, j);
      if j != o + 1 && Place(m, c, o, j).Some? { NumbersDiffer(m, c, o, j); }
    }
  }

  lemma AfterShift(m: seq<int>, c: Chain, o: nat)
    requires Closes(m, c, o + 1)
    ensures o + 1 < |c.blocks| && NewAt(m, c, o + 1) == NewAt(m, c, o) + c.h + c.blocks[o].size
    ensures Place(m, c, o, o) == Some(o - Freed(m, c, o)) && Place(m, c, o, o + 1) == Some(o + 1 - Freed(m, c, o))
  {
  }

  lemma LiesUnshifted(m: seq<int>, c: Chain, d: Chain, o: nat)
    requires Lies(m, c, d, o, o) && !Closes(m, c, o + 1)
    ensures Lies(m, c, d, o, o + 1)
  {
    hide Marked, Closes, Place;
    var next := o + 1;
    forall j | 0 <= j < |c.blocks|
      ensures LiesAt(m, c, d, o, next, j)
    {
      assert LiesAt(m, c, d, o, o, j);
    }
  }

  lemma LiesVisited(m: seq<int>, c: Chain, d: Chain, o: nat)
    requires Lies(m, c, d, o, o + 1) && !Marked(m, c, o)
    ensures Lies(m, c, d, o + 1, o + 1)
  {
    hide Marked, NewAt;
    var next := o + 1;
    forall j | 0 <= j < |c.blocks|
      ensures LiesAt(m, c, d, next, next, j)
    {
      assert LiesAt(m, c, d, o, next, j);
    }
  }

  lemma LiesDropped(m: seq<int>, c: Chain, n: seq<int>, d: Chain, l: seq<int>, e: Chain, o: nat)
    requires Lies(m, c, d, o, o + 1) && Marked(m, c, o) && Drops(n, d, l, e, o - Freed(m, c, o))
    ensures Lies(m, c, e, o + 1, o + 1)
  {
    hide Marked, NewAt, Freed;
    var i, next := o - Freed(m, c, o), o + 1;
    forall j | 0 <= j < |c.blocks|
      ensures LiesAt(m, c, e, next, next, j)
    {
      assert LiesAt(m, c, d, o, next, j);
      if Place(m, c, next, j).Some? {
        PlaceAfter(m, c, o, j);
        assert SameBlock(n, d, Place(m, c, o, j).value, l, e, Down(i, Place(m, c, o, j).value));
      }
    }
  }

  /** The state of the loop at block o, which is block i by now. */
  ghost predicate At(m: seq<int>, c: Chain, s: seq<int>, heap: Heap, t: seq<int>, o: nat, i: nat)
    reads heap, heap.mem
  {
    && heap.Valid() && Collected(m, c, s, heap.mem[..], heap.chain, t, o) && Lies(m, c, heap.chain, o, o)
    && o < |c.blocks| && i == o - Freed(m, c, o) && i < |heap.chain.blocks|
    && Last(c, o) == Last(c, 0) && !Marked(m, c, 0) && (o == 0 <==> c.blocks[o].size == 0)
    && SameBlock(m, c, o, heap.mem[..], heap.chain, i)
  }

  /** What the loop reads at its block, and how it goes on. */
  lemma AtBlock(m: seq<int>, c: Chain, s: seq<int>, heap: Heap, t: seq<int>, o: nat, i: nat)
    requires At(m, c, s, heap, t, o, i)
    ensures heap.Valid() && heap.chain.h == heap.h >= 2 && i < |heap.chain.blocks| && o < |c.blocks|
    ensures Collected(m, c, s, heap.mem[..], heap.chain, t, o) && i == o - Freed(m, c, o) && !Marked(m, c, 0)
    ensures Lies(m, c, heap.chain, o, o) && heap.chain.blocks[i].size == c.blocks[o].size
    ensures Last(c, 0) == if o + 1 < |c.blocks| && c.blocks[o + 1].size > 0 then Last(c, o + 1) else o
    ensures Freed(m, c, o + 1) == Freed(m, c, o) + if Marked(m, c, o) then 1 else 0
    ensures var d := heap.chain;
      && d.blocks[i].at + d.h < heap.mem.Length
      && (o > 0 ==> (Marked(m, c, o) <==> heap.mem[d.blocks[i].at + d.h] == VM_MAGIC_MASK_ZERO))
      && (o == 0 <==> i == 0) && (o == 0 ==> !Marked(m, c, o))
      && (i + 1 < |d.blocks| && d.blocks[i + 1].size > 0 <==> o + 1 < |c.blocks| && c.blocks[o + 1].size > 0)
      && (i + 1 < |d.blocks| ==> d.blocks[i + 1].at + d.h < heap.mem.Length)
      && (i + 1 < |d.blocks| && d.blocks[i + 1].size > 0 ==>
            (Movable(heap.mem[d.blocks[i + 1].at + d.h]) <==> Closes(m, c, o + 1)))
  {
    hide Represents, Chain.Valid, Lies, Movable;
    var n, d := heap.mem[..], heap.chain;
    HeaderOf(n, d, i);
    d.BeforeEnd(i);
    SameMark(m, c, o, n, d, i);
    if o + 1 < |c.blocks| {
      assert Kept(m, c, s, n, d, t, o, o + 1);
    }
    if i + 1 < |d.blocks| {
      HeaderOf(n, d, i + 1);
    }
  }

  /** The loop goes on to the next block. */
  lemma GoesOn(m: seq<int>, c: Chain, s: seq<int>, heap: Heap, t: seq<int>, o: nat, i: nat)
    requires heap.Valid() && Collected(m, c, s, heap.mem[..], heap.chain, t, o + 1)
    requires Lies(m, c, heap.chain, o + 1, o + 1)
    requires o + 1 < |c.blocks| && c.blocks[o + 1].size > 0 && Last(c, o + 1) == Last(c, 0)
    requires i == o + 1 - Freed(m, c, o + 1) && !Marked(m, c, 0)
    ensures At(m, c, s, heap, t, o + 1, i)
  {
    hide SameBlock, Represents, Lies;
    assert Kept(m, c, s, heap.mem[..], heap.chain, t, o + 1, o + 1);
  }

  lemma Starts(heap: Heap, s: seq<int>)
    requires heap.Valid()
    ensures At(heap.mem[..], heap.chain, s, heap, s, 0, 0)
    ensures |heap.chain.blocks| >= 1 && heap.chain.blocks[0].at == 0 && heap.chain.h == heap.h
  {
    hide Represents, SameBlock;
    var m, c := heap.mem[..], heap.chain;
    HeaderOf(m, c, 0);
    Positive(c);
    NothingCollected(m, c, s);
    LiesFirst(m, c);
    assert Kept(m, c, s, m, c, s, 0, 0);
  }

  lemma Behind(m: seq<int>, c: Chain, n: seq<int>, d: Chain, i: nat)
    requires Drops(m, c, n, d, i) && i + 1 < |c.blocks|
    ensures i < |d.blocks| && d.h == c.h && d.blocks[i] == c.blocks[i + 1]
  {
    assert SameBlock(m, c, i + 1, n, d, Down(i, i + 1));
  }

  /** One turn of the loop behind which it goes on: shift the next chunk, then free the one just left. */
  method Visit(heap: Heap, slots: array<int>, candidate: nat, nextchunk: nat, dead: bool,
      ghost m: seq<int>, ghost c: Chain, ghost s: seq<int>, ghost o: nat, ghost i: nat)
    returns (chunk: nat)
    requires At(m, c, s, heap, slots[..], o, i) && slots != heap.mem
    requires i + 1 < |heap.chain.blocks| && heap.chain.blocks[i + 1].size > 0
    requires candidate == heap.chain.blocks[i].at + heap.h && candidate < heap.mem.Length
    requires dead == (heap.mem[candidate] == VM_MAGIC_MASK_ZERO) && nextchunk == heap.chain.blocks[i + 1].at + heap.h
    modifies heap`chain, heap.mem, slots
    ensures var x: int := o + 1 - Freed(m, c, o + 1);
      && x >= 0 && At(m, c, s, heap, slots[..], o + 1, x) && x < |heap.chain.blocks|
      && chunk == heap.chain.blocks[x].at + heap.h
  {
    hide Represents, SameBlock, Chain.Valid, Collected, At, Carries, Marked, Freed, Last, Place, Kept, Movable, Lies,
      Closes;
    AtBlock(m, c, s, heap, slots[..], o, i);
    chunk := nextchunk;
    if Movable(heap.mem[nextchunk]) {
      ghost var n, d, t := heap.mem[..], heap.chain, slots[..];
      chunk := ShiftAndRedirect(heap, slots, candidate, i);
      CarriedOn(m, c, s, n, d, t, heap.mem[..], heap.chain, slots[..], o);
      LiesShifted(m, c, d, o);
    } else {
      LiesUnshifted(m, c, heap.chain, o);
    }
    if dead {
      ghost var n, d := heap.mem[..], heap.chain;
      Release(heap, candidate, i);
      if i == 0 {
        CarriedOn(m, c, s, n, d, slots[..], heap.mem[..], heap.chain, slots[..], o);
        Visited(m, c, s, heap.mem[..], heap.chain, slots[..], o);
        LiesVisited(m, c, heap.chain, o);
      } else {
        LiesDropped(m, c, n, d, heap.mem[..], heap.chain, o);
        Dropped(m, c, s, n, d, slots[..], heap.mem[..], heap.chain, o);
        Behind(n, d, heap.mem[..], heap.chain, i);
      }
    } else {
      Visited(m, c, s, heap.mem[..], heap.chain, slots[..], o);
      LiesVisited(m, c, heap.chain, o);
    }
    GoesOn(m, c, s, heap, slots[..], o, o + 1 - Freed(m, c, o + 1));
  }

  /**
    vm_garbage_collect: of the blocks up to the last that it visits exactly the marked ones go, all others keep
    their sizes and their contents, and every slot that referred to such a block refers to it still.
    */
  method Collect(heap: Heap, slots: array<int>)
    requires heap.Valid() && slots != heap.mem
    modifies heap`chain, heap.mem, slots
    ensures heap.Valid()
    ensures Collected(old(heap.mem[..]), old(heap.chain), old(slots[..]), heap.mem[..], heap.chain, slots[..],
              Last(old(heap.chain), 0))
    ensures var o := Last(old(heap.chain), 0); Lies(old(heap.mem[..]), old(heap.chain), heap.chain, o, o)
  {
    hide Represents, SameBlock, Chain.Valid, Collected, At, Marked, Freed, Last, Place, Kept, Lies, Closes;
    ghost var m, c, s := heap.mem[..], heap.chain, slots[..];
    ghost var o: nat, i: nat := 0, 0;
    var chunk := heap.h;         // m_first_chunk
    Starts(heap, s);
    while true
      invariant At(m, c, s, heap, slots[..], o, i)
      invariant i < |heap.chain.blocks| && chunk == heap.chain.blocks[i].at + heap.h
      decreases |c.blocks| - o
    {
      AtBlock(m, c, s, heap, slots[..], o, i);
      var dead := heap.mem[chunk] == VM_MAGIC_MASK_ZERO;
      var nextchunk := heap.NextChunk(chunk, i);
      if nextchunk == NULL {
        break;
      }
      var candidate := chunk;
      chunk := Visit(heap, slots, candidate, nextchunk, dead, m, c, s, o, i);
      i := o + 1 - Freed(m, c, o + 1);
      o := o + 1;
    }
  }

  // ---------- whom a collection takes ----------

  /**
    The collector compares with 0x8F where an object without holders reads 0x80. So of the objects that
    slots hold it frees exactly those with fifteen holders, and an object whose count is down to 0 stays.
    */
  lemma TakesFifteenHolders(m: seq<int>, c: Chain, j: nat, machine: StackMachine.Machine, id: nat)
    requires j < Last(c, 0) && j < |c.blocks| && c.blocks[j].size > 0 && c.EndOf(j) <= |m|
    requires StackMachine.Exact(machine) && id < |machine.mgc| && Payload(m, c, j)[0] == machine.mgc[id]
    ensures var held, x := StackMachine.Held(machine)[StackMachine.Ref(id)], Place(m, c, Last(c, 0), j);
      && (held > 0 ==> (x.None? <==> held == 15))
      && (machine.mgc[id] == StackMachine.VM_MAGIC ==> x.Some?)
  {
    hide StackMachine.Held, Last;
    assert StackMachine.ExactFor(machine, id);
  }

  /** Fifteen slots hold an object of the machine, and its byte is the one that the collector looks for. */
  lemma FifteenHolders(pkg: nat, main: word) returns (machine: StackMachine.Machine)
    ensures var calls := [StackMachine.SCtx(1)] + StackMachine.Times(14, StackMachine.ObjPush(0));
      StackMachine.Run(Some(StackMachine.Start(pkg, main)), calls) == Some(machine)
    ensures StackMachine.Exact(machine) && StackMachine.Held(machine)[StackMachine.Ref(0)] == 15
    ensures machine.mgc == [VM_MAGIC_MASK_ZERO]
  {
    hide StackMachine.Run, StackMachine.Times, StackMachine.Exact, StackMachine.Held;
    machine := StackMachine.Pushed(pkg, main, 14);
    StackMachine.ManyHolders(pkg, main, 14);
  }

  /** A heap with such an object, and another one behind it: a collection frees it, whatever slots hold it. */
  lemma HeldIsFreed() returns (m: seq<int>, c: Chain)
    ensures Represents(m, c) && 1 < |c.blocks| && c.EndOf(1) <= |m| && Payload(m, c, 1) == [VM_MAGIC_MASK_ZERO]
    ensures PointsTo(c, 4, 1) && Place(m, c, Last(c, 0), 1) == None
  {
    c := Chain(2, [Block(0, 0), Block(2, 1), Block(5, 1)], 8);
    m := [0, 2, 1, 5, VM_MAGIC_MASK_ZERO, 1, 8, StackMachine.VM_MAGIC + 1, 0, NULL];
    assert HeaderAt(m, c, 0) && HeaderAt(m, c, 1) && HeaderAt(m, c, 2);
    assert Last(c, 0) == Last(c, 1) == Last(c, 2) == 2;
    assert Payload(m, c, 1) == m[4..5] == [VM_MAGIC_MASK_ZERO];
  }
}
