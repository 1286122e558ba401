/** The first-fit allocator of midgard.c over headers stored in one buffer. */
module Midgard {
  import opened Bytes
  import opened HeapChain
  import opened Wrappers

  const NULL := -1

  /** Buffer m holds the headers of chain c: size first, then the link. */
  ghost predicate Represents(m: seq<int>, c: Chain) {
    && c.Valid() && c.end + c.h <= |m|
    && m[c.end] == 0 && m[c.end + 1] == NULL
    && forall i :: 0 <= i < |c.blocks| ==> HeaderAt(m, c, i)
  }

  ghost predicate HeaderAt(m: seq<int>, c: Chain, i: nat)
    requires i < |c.blocks|
  {
    var a := c.blocks[i].at;
    c.EndOf(i) <= |m| && c.h >= 2 && m[a] == c.blocks[i].size && m[a + 1] == c.NextOf(i)
  }

  /** The payload of block b in buffer m. */
  function Payload(m: seq<int>, c: Chain, i: nat): seq<int>
    requires i < |c.blocks| && c.EndOf(i) <= |m|
  {
    m[c.blocks[i].at + c.h..c.EndOf(i)]
  }

  ghost predicate SamePayloads(m: seq<int>, n: seq<int>, c: Chain) {
    |m| == |n| && forall i :: 0 <= i < |c.blocks| && c.EndOf(i) <= |m| ==> Payload(m, c, i) == Payload(n, c, i)
  }

  /** The buffer after m_alloc linked a new header in. */
  function Linked(m: seq<int>, c: Chain, size: nat): (n: seq<int>)
    requires |c.blocks| >= 1
  {
    var k, a := c.FirstFit(size, 0), c.Added(size).at;
    if k < |c.blocks| && c.h >= 2 && a + 1 < |m| && c.blocks[k].at + 1 < |m| then
      m[a := size][c.blocks[k].at + 1 := a][a + 1 := c.NextOf(k)]
    else if a + c.h + size + 1 < |m| then
      m[a := size][a + 1 := a + c.h + size][a + c.h + size := 0][a + c.h + size + 1 := NULL]
    else m
  }

  /** A header written into the gap behind block k touches no block but for the link of k. */
  lemma GapIsClear(c: Chain, k: nat, i: nat)
    requires c.Valid() && k < |c.blocks| && i < |c.blocks| && c.EndOf(k) + c.h <= c.NextOf(k)
    ensures i <= k ==> c.EndOf(i) <= c.EndOf(k)
    ensures i > k ==> c.EndOf(k) + c.h <= c.blocks[i].at
    ensures i < k ==> c.EndOf(i) <= c.blocks[k].at
    ensures c.EndOf(i) <= c.end && c.EndOf(k) + c.h <= c.end
  {
    c.BeforeEnd(i);
    if i < k { c.Ordered(i, k); }
    if k + 1 < i { c.Ordered(k + 1, i); }
    if k + 1 < |c.blocks| { c.BeforeEnd(k + 1); }
  }

  /** Block j after an allocation in a gap. */
  lemma AllocatedAt(c: Chain, size: nat, j: nat)
    requires c.Valid() && c.FirstFit(size, 0) < |c.blocks| && j < |c.blocks|
    ensures var k, d := c.FirstFit(size, 0), c.Alloc(size);
      var i := if j <= k then j else j + 1;
      && i < |d.blocks| && d.h == c.h && d.blocks[i] == c.blocks[j]
      && d.NextOf(i) == if j == k then c.EndOf(k) else c.NextOf(j)
  {
    hide Chain.Valid, Chain.FirstFit;
  }

  lemma LinkedKeeps(m: seq<int>, c: Chain, size: nat, j: nat)
    requires c.Valid() && c.end + c.h <= |m| && c.FirstFit(size, 0) < |c.blocks| && j < |c.blocks| && HeaderAt(m, c, j)
    ensures var k, d := c.FirstFit(size, 0), c.Alloc(size);
      var i := if j <= k then j else j + 1;
      i < |d.blocks| && d.blocks[i] == c.blocks[j] && HeaderAt(Linked(m, c, size), d, i)
  {
    hide Chain.Valid, Chain.FirstFit, Chain.Alloc, Chain.NextOf;
    AllocatedAt(c, size, j);
    GapIsClear(c, c.FirstFit(size, 0), j);
    GapIsClear(c, c.FirstFit(size, 0), c.FirstFit(size, 0));
  }

  lemma LinkedKeepsPayload(m: seq<int>, c: Chain, size: nat, j: nat)
    requires c.Valid() && c.end + c.h <= |m| && c.FirstFit(size, 0) < |c.blocks| && j < |c.blocks| && HeaderAt(m, c, j)
    ensures Payload(m, c, j) == Payload(Linked(m, c, size), c, j)
  {
    hide Chain.Valid, Chain.FirstFit;
    GapIsClear(c, c.FirstFit(size, 0), j);
    GapIsClear(c, c.FirstFit(size, 0), c.FirstFit(size, 0));
  }

  lemma LinkedAddsHeader(m: seq<int>, c: Chain, size: nat)
    requires Represents(m, c) && c.FirstFit(size, 0) < |c.blocks|
    ensures var k, n, d := c.FirstFit(size, 0), Linked(m, c, size), c.Alloc(size);
      && k + 1 < |d.blocks| == |c.blocks| + 1 && d.blocks[k + 1] == c.Added(size) && HeaderAt(n, d, k + 1)
      && |n| == |m| && n[d.end] == 0 && n[d.end + 1] == NULL && d.end == c.end && d.h == c.h
  {
    var k := c.FirstFit(size, 0);
    c.AllocKeepsValid(size);
    GapIsClear(c, k, k);
    c.Alloc(size).BeforeEnd(k + 1);
    assert HeaderAt(m, c, k);
  }

  lemma LinkedInGap(m: seq<int>, c: Chain, size: nat)
    requires Represents(m, c) && c.FirstFit(size, 0) < |c.blocks|
    ensures Represents(Linked(m, c, size), c.Alloc(size)) && SamePayloads(m, Linked(m, c, size), c)
  {
    hide HeaderAt, Payload, Chain.Valid, Linked, Chain.Alloc, Chain.FirstFit;
    c.AllocKeepsValid(size);
    var k, n, d := c.FirstFit(size, 0), Linked(m, c, size), c.Alloc(size);
    LinkedAddsHeader(m, c, size);
    forall j | 0 <= j < |c.blocks|
      ensures c.EndOf(j) <= |m| && Payload(m, c, j) == Payload(n, c, j)
    {
      assert HeaderAt(m, c, j);
      c.BeforeEnd(j);
      LinkedKeepsPayload(m, c, size, j);
    }
    forall i | 0 <= i < |d.blocks|
      ensures HeaderAt(n, d, i)
    {
      if i != k + 1 {
        var j := if i <= k then i else i - 1;
        assert HeaderAt(m, c, j);
        LinkedKeeps(m, c, size, j);
      }
    }
  }

  lemma LinkedAtEnd(m: seq<int>, c: Chain, size: nat)
    requires Represents(m, c) && c.FirstFit(size, 0) == |c.blocks| && c.end + c.h + size + c.h <= |m|
    ensures Represents(Linked(m, c, size), c.Alloc(size)) && SamePayloads(m, Linked(m, c, size), c)
  {
    hide HeaderAt, Payload, Chain.Valid, Linked, Chain.Alloc, Chain.FirstFit;
    c.AllocKeepsValid(size);
    HeaderOf(m, c, 0);
    AppendedAddsHeader(m, c, size);
    var n, d := Linked(m, c, size), c.Alloc(size);
    forall i | 0 <= i < |c.blocks|
      ensures c.EndOf(i) <= |m| && Payload(m, c, i) == Payload(n, c, i) && HeaderAt(n, d, i)
    {
      c.BeforeEnd(i);
      assert HeaderAt(m, c, i);
      AppendedKeeps(m, c, size, i);
    }
  }

  lemma AppendedKeeps(m: seq<int>, c: Chain, size: nat, i: nat)
    requires c.FirstFit(size, 0) == |c.blocks| && c.end + c.h + size + c.h <= |m|
    requires i < |c.blocks| && HeaderAt(m, c, i) && c.EndOf(i) <= c.end
    ensures i < |c.Alloc(size).blocks| && HeaderAt(Linked(m, c, size), c.Alloc(size), i)
    ensures Payload(m, c, i) == Payload(Linked(m, c, size), c, i)
  {
    hide Chain.FirstFit;
  }

  lemma AppendedAddsHeader(m: seq<int>, c: Chain, size: nat)
    requires c.FirstFit(size, 0) == |c.blocks| >= 1 && c.h >= 2 && c.end + c.h + size + c.h <= |m|
    ensures var n, d := Linked(m, c, size), c.Alloc(size);
      && |d.blocks| == |c.blocks| + 1 && HeaderAt(n, d, |c.blocks|)
      && |n| == |m| && d.end + d.h <= |n| && n[d.end] == 0 && n[d.end + 1] == NULL
  {
    hide Chain.FirstFit;
  }

  /** The buffer after m_free unlinked block k. */
  function Unlinked(m: seq<int>, c: Chain, k: nat): seq<int>
    requires 0 < k < |c.blocks|
  {
    var a, b := c.blocks[k].at, c.blocks[k - 1].at;
    if a + 1 < |m| && b + 1 < |m| then m[b + 1 := c.NextOf(k)][a := 0][a + 1 := NULL] else m
  }

  /** Block j after block k was released. */
  lemma FreedAt(c: Chain, k: nat, j: nat)
    requires 0 < k < |c.blocks| && c.Find(c.blocks[k].at, 1) == k && j < |c.blocks| && j != k
    ensures var d := c.Free(c.blocks[k].at);
      var i := if j < k then j else j - 1;
      && i < |d.blocks| && d.h == c.h && d.end == c.end && d.blocks[i] == c.blocks[j]
      && d.NextOf(i) == if j == k - 1 then c.NextOf(k) else c.NextOf(j)
  {
    hide Chain.Find;
  }

  lemma UnlinkedKeeps(m: seq<int>, c: Chain, k: nat, j: nat)
    requires c.Valid() && c.end + c.h <= |m| && 0 < k < |c.blocks| && c.Find(c.blocks[k].at, 1) == k
    requires j < |c.blocks| && j != k && HeaderAt(m, c, j) && HeaderAt(m, c, k)
    ensures var n, d := Unlinked(m, c, k), c.Free(c.blocks[k].at);
      var i := if j < k then j else j - 1;
      && |n| == |m| && d.blocks[i] == c.blocks[j] && d.EndOf(i) <= |m|
      && HeaderAt(n, d, i) && Payload(m, d, i) == Payload(n, d, i)
  {
    hide Chain.Valid, Chain.Find, Chain.Free, Chain.NextOf;
    FreedAt(c, k, j);
    c.Ordered(k - 1, k);
    c.BeforeEnd(j);
    if j < k - 1 { c.Ordered(j, k - 1); }
    if k < j { c.Ordered(k, j); }
  }

  lemma UnlinkedEnds(m: seq<int>, c: Chain, k: nat)
    requires c.Valid() && c.end + c.h <= |m| && 0 < k < |c.blocks| && m[c.end] == 0 && m[c.end + 1] == NULL
    ensures var n := Unlinked(m, c, k); |n| == |m| && n[c.end] == 0 && n[c.end + 1] == NULL
  {
    hide Chain.Find;
    c.Ordered(k - 1, k);
    c.BeforeEnd(k);
  }

  lemma UnlinkedRepresents(m: seq<int>, c: Chain, k: nat)
    requires Represents(m, c) && 0 < k < |c.blocks| && c.Find(c.blocks[k].at, 1) == k
    ensures var n, d := Unlinked(m, c, k), c.Free(c.blocks[k].at); Represents(n, d) && SamePayloads(m, n, d)
  {
    hide HeaderAt, Payload, Chain.Valid, Unlinked, Chain.Find;
    var n, d := Unlinked(m, c, k), c.Free(c.blocks[k].at);
    c.FreeKeepsValid(c.blocks[k].at);
    assert HeaderAt(m, c, k) && HeaderAt(m, c, k - 1);
    UnlinkedEnds(m, c, k);
    forall i | 0 <= i < |d.blocks|
      ensures d.EndOf(i) <= |m| && HeaderAt(n, d, i) && Payload(m, d, i) == Payload(n, d, i)
    {
      var j := if i < k then i else i + 1;
      assert HeaderAt(m, c, j);
      UnlinkedKeeps(m, c, k, j);
    }
  }

  /** The buffer after m_free took the sentinel for a block: the last block is the end of the list now. */
  function Severed(m: seq<int>, c: Chain): (n: seq<int>)
    requires |c.blocks| >= 1
    ensures |n| == |m|
  {
    var k := c.blocks[|c.blocks| - 1].at + 1;
    if k < |m| then m[k := NULL] else m
  }

  lemma SeveredIsNoChain(m: seq<int>, c: Chain)
    requires Represents(m, c)
    ensures |c.blocks| >= 1 && c.blocks[|c.blocks| - 1].at + 1 < c.end && c.end + c.h <= |m|
    ensures !Represents(Severed(m, c), c) && Severed(m, c)[c.end := 0][c.end + 1 := NULL] == Severed(m, c)
  {
    var k := |c.blocks| - 1;
    assert HeaderAt(m, c, k);
    assert !HeaderAt(Severed(m, c), c, k);
  }

  /** The writes of m_free that finds block b behind header a. */
  function Cleared(m: seq<int>, a: nat, b: nat): seq<int>
    requires a + 1 < |m| && b + 1 < |m|
  {
    m[a + 1 := m[b + 1]][b := 0][b + 1 := NULL]
  }

  /** The writes of m_alloc at the sentinel. */
  lemma Appends(m: seq<int>, c: Chain, size: nat)
    requires Represents(m, c) && c.FirstFit(size, 0) == |c.blocks| && c.end + c.h + size + c.h <= |m|
    ensures var n, temp := Image(m, c, DoAlloc(size)), c.end + c.h + size;
      && n == m[c.end := size][c.end + 1 := temp][temp + 1 := NULL][temp := 0]
      && Represents(n, c.Alloc(size)) && SamePayloads(m, n, c) && c.Added(size).at == c.end && c.Alloc(size).h == c.h
  {
    hide Represents, SamePayloads, Chain.Valid, Chain.FirstFit;
    HeaderOf(m, c, 0);
    LinkedAtEnd(m, c, size);
  }

  /** The writes of m_alloc in a gap. */
  lemma Inserts(m: seq<int>, c: Chain, size: nat)
    requires Represents(m, c) && c.FirstFit(size, 0) < |c.blocks|
    ensures var k := c.FirstFit(size, 0);
      var n, a := Image(m, c, DoAlloc(size)), c.EndOf(k);
      && c.blocks[k].at + 1 < a && a + 1 < |m|
      && n == m[a := size][c.blocks[k].at + 1 := a][a + 1 := c.NextOf(k)]
      && Represents(n, c.Alloc(size)) && SamePayloads(m, n, c) && c.Added(size).at == a && c.Alloc(size).h == c.h
  {
    hide Represents, SamePayloads, Chain.Valid, Chain.FirstFit;
    var k := c.FirstFit(size, 0);
    HeaderOf(m, c, k);
    GapIsClear(c, k, k);
    LinkedInGap(m, c, size);
  }

  lemma BlockFreed(m: seq<int>, c: Chain, i: nat)
    requires Represents(m, c) && i + 1 < |c.blocks| && c.Find(c.NextOf(i), 1) == i + 1
    ensures c.blocks[i].at + 1 < c.NextOf(i) < c.end && c.end + 1 < |m|
    ensures var a, b := c.blocks[i].at, c.NextOf(i);
      var n, d := Cleared(m, a, b), c.Free(b);
      && n == Image(m, c, DoFree(b)) && Represents(n, d) && SamePayloads(m, n, d)
      && |d.blocks| < |c.blocks| && d.h == c.h
  {
    hide SamePayloads, Represents, Chain.Valid;
    HeaderOf(m, c, i + 1);
    c.Ordered(i, i + 1);
    UnlinkedRepresents(m, c, i + 1);
  }

  lemma SentinelFreed(m: seq<int>, c: Chain)
    requires Represents(m, c)
    ensures |c.blocks| >= 1 && c.blocks[|c.blocks| - 1].at + 1 < c.end && c.end + 1 < |m|
    ensures var n := Cleared(m, c.blocks[|c.blocks| - 1].at, c.end); n == Severed(m, c) && !Represents(n, c)
  {
    hide Represents, Chain.Valid;
    HeaderOf(m, c, |c.blocks|);
    SeveredIsNoChain(m, c);
  }

  lemma NothingFreed(m: seq<int>, c: Chain, a: int)
    requires c.Valid() && c.Find(a, 1) == |c.blocks|
    ensures Image(m, c, DoFree(a)) == m && c.Free(a) == c && SamePayloads(m, m, c)
  {
  }

  /** The address of block i, of the sentinel behind the last block, or NULL. */
  ghost function AddressOf(c: Chain, i: nat): int {
    if i < |c.blocks| then c.blocks[i].at else if i == |c.blocks| then c.end else NULL
  }

  /** The headers of the list link each address to the next one. */
  lemma LinkOf(m: seq<int>, c: Chain, i: nat)
    requires Represents(m, c) && i <= |c.blocks|
    ensures |c.blocks| >= 1 && AddressOf(c, 0) == 0 && c.Valid()
    ensures 0 <= AddressOf(c, i) && AddressOf(c, i) + 1 < |m| && m[AddressOf(c, i) + 1] == AddressOf(c, i + 1)
    ensures i < |c.blocks| ==> AddressOf(c, i) == c.blocks[i].at && AddressOf(c, i + 1) == c.NextOf(i)
    ensures i < |c.blocks| ==> c.NextOf(i) == if i + 1 < |c.blocks| then c.blocks[i + 1].at else c.end
    ensures i == |c.blocks| ==> AddressOf(c, i + 1) == NULL
  {
    hide Represents, Chain.Valid;
    HeaderOf(m, c, i);
  }

  lemma AddressesEnd(c: Chain, i: nat)
    requires c.Valid() && AddressOf(c, i) == NULL
    ensures i > |c.blocks|
  {
  }

  lemma FindUnfolds(c: Chain, a: int, i: nat)
    requires i <= |c.blocks|
    ensures c.Find(a, i) == if i == |c.blocks| || c.blocks[i].at == a then i else c.Find(a, i + 1)
  {
  }

  lemma NoBlockAtEnd(c: Chain)
    requires c.Valid()
    ensures c.Find(c.end, 1) == |c.blocks|
  {
    var k := c.Find(c.end, 1);
    if k < |c.blocks| { c.BeforeEnd(k); }
  }

  /** The buffer after m_shift_next_chunk moved what follows block i. */
  function Packed(m: seq<int>, c: Chain, i: nat): (n: seq<int>)
    requires i < |c.blocks|
  {
    var dst, src := c.EndOf(i), c.NextOf(i);
    var len := (if i + 1 < |c.blocks| then c.blocks[i + 1].size else 0) + c.h;
    if dst < src && src + len <= |m| && c.blocks[i].at + 1 < |m| then
      Moved(m[c.blocks[i].at + 1 := dst], dst, src, len)
    else m
  }

  lemma PackedIsMoved(m: seq<int>, c: Chain, i: nat)
    requires i < |c.blocks| && c.blocks[i].at + 1 < |m|
    ensures var dst, src := c.EndOf(i), c.NextOf(i);
            var len := (if i + 1 < |c.blocks| then c.blocks[i + 1].size else 0) + c.h;
            if dst < src && src + len <= |m| then Packed(m, c, i) == Moved(m[c.blocks[i].at + 1 := dst], dst, src, len)
            else Packed(m, c, i) == m
  {
  }

  /** Where a block that is not block i + 1 lies relative to what moves. */
  lemma ShiftIsClear(c: Chain, i: nat, j: nat)
    requires c.Valid() && i < |c.blocks| && j < |c.blocks| && j != i + 1
    ensures j < i ==> c.EndOf(j) <= c.blocks[i].at
    ensures j <= i ==> c.EndOf(j) <= c.EndOf(i) <= c.NextOf(i)
    ensures i + 1 < j ==> c.EndOf(i + 1) <= c.blocks[j].at
    ensures c.EndOf(j) <= c.end && c.NextOf(i) <= c.end && (i + 1 < |c.blocks| ==> c.EndOf(i + 1) <= c.end)
  {
    c.BeforeEnd(j);
    c.BeforeEnd(i);
    assert c.EndOf(i) <= c.NextOf(i);
    if j < i { c.Ordered(j, i); }
    if i + 1 < j { c.Ordered(i + 1, j); }
    if i + 1 < |c.blocks| { c.BeforeEnd(i + 1); }
  }

  /** A header at b with s units of payload, moved down to a after a write at x below a. */
  lemma BlockMoves(m: seq<int>, x: nat, a: nat, b: nat, h: nat, s: nat)
    requires x < a < b && b + h + s <= |m| && h >= 2
    ensures var n := Moved(m[x := a], a, b, s + h);
      |n| == |m| && n[a] == m[b] && n[a + 1] == m[b + 1] && n[a + h..a + h + s] == m[b + h..b + h + s]
  {
    MovedRange(m[x := a], a, b, s + h, h, h + s);
    assert m[x := a][b + h..b + h + s] == m[b + h..b + h + s];
  }

  /** What the move leaves alone. */
  lemma RestStays(m: seq<int>, x: nat, a: nat, b: nat, n: nat, lo: nat, hi: nat)
    requires x < a < b && b + n <= |m| && lo <= hi <= |m| && (hi <= a || a + n <= lo) && !(lo <= x < hi)
    ensures var r := Moved(m[x := a], a, b, n); |r| == |m| && r[lo..hi] == m[lo..hi]
  {
    MovedElsewhere(m[x := a], a, b, n, lo, hi);
  }

  /** The block that moves keeps its header and payload. */
  lemma PackedMoves(m: seq<int>, c: Chain, i: nat)
    requires c.Valid() && c.end + c.h <= |m| && i + 1 < |c.blocks| && HeaderAt(m, c, i) && HeaderAt(m, c, i + 1)
    ensures c.Shift(i).EndOf(i + 1) <= |m| && |Packed(m, c, i)| == |m|
    ensures HeaderAt(Packed(m, c, i), c.Shift(i), i + 1)
    ensures Payload(m, c, i + 1) == Payload(Packed(m, c, i), c.Shift(i), i + 1)
  {
    hide Chain.Valid, Moved;
    ShiftIsClear(c, i, i);
    if c.EndOf(i) < c.NextOf(i) {
      BlockMoves(m, c.blocks[i].at + 1, c.EndOf(i), c.NextOf(i), c.h, c.blocks[i + 1].size);
    }
  }

  lemma PackedKeepsPayload(m: seq<int>, c: Chain, i: nat, j: nat)
    requires c.Valid() && c.end + c.h <= |m| && i < |c.blocks| && j < |c.blocks| && j != i + 1
    requires HeaderAt(m, c, i) && HeaderAt(m, c, j)
    ensures c.Shift(i).EndOf(j) == c.EndOf(j) && |Packed(m, c, i)| == |m|
    ensures Payload(m, c, j) == Payload(Packed(m, c, i), c.Shift(i), j)
  {
    hide Chain.Valid, Moved, Packed;
    PackedIsMoved(m, c, i);
    ShiftIsClear(c, i, j);
    ShiftIsClear(c, i, i);
    var x, a, b := c.blocks[i].at + 1, c.EndOf(i), c.NextOf(i);
    var n := (if i + 1 < |c.blocks| then c.blocks[i + 1].size else 0) + c.h;
    if a < b {
      RestStays(m, x, a, b, n, c.blocks[j].at + c.h, c.EndOf(j));
    }
  }

  lemma PackedKeepsHeader(m: seq<int>, c: Chain, i: nat, j: nat)
    requires c.Valid() && c.end + c.h <= |m| && i < |c.blocks| && j < |c.blocks| && j != i + 1
    requires HeaderAt(m, c, i) && HeaderAt(m, c, j)
    ensures |Packed(m, c, i)| == |m| && HeaderAt(Packed(m, c, i), c.Shift(i), j)
  {
    hide Chain.Valid, Moved, Packed;
    PackedIsMoved(m, c, i);
    ShiftIsClear(c, i, j);
    ShiftIsClear(c, i, i);
    ShiftKeepsHeader(c, i, j);
    var a, n := c.blocks[i].at, (if i + 1 < |c.blocks| then c.blocks[i + 1].size else 0) + c.h;
    if c.EndOf(i) < c.NextOf(i) {
      HeaderStays(m, a, c.EndOf(i), c.NextOf(i), n, c.blocks[j].at);
    }
  }

  /** Closing the gap behind block i changes the link of that block alone. */
  lemma ShiftKeepsHeader(c: Chain, i: nat, j: nat)
    requires c.Valid() && i < |c.blocks| && j < |c.blocks| && j != i + 1
    ensures var d := c.Shift(i);
            && |d.blocks| == |c.blocks| && d.h == c.h && d.blocks[j] == c.blocks[j]
            && d.NextOf(j) == if j == i then c.EndOf(i) else c.NextOf(j)
  {
  }

  lemma HeaderStays(m: seq<int>, x: nat, a: nat, b: nat, n: nat, y: nat)
    requires x + 2 <= a <= b && b + n <= |m| && (y == x || y + 2 <= x || x + 2 <= y)
    requires y + 2 <= a || a + n <= y < |m| - 1
    ensures var r := Moved(m[x + 1 := a], a, b, n);
            |r| == |m| && r[y] == m[y] && r[y + 1] == if y == x then a else m[y + 1]
  {
  }

  lemma PackedRepresents(m: seq<int>, c: Chain, i: nat)
    requires Represents(m, c) && i < |c.blocks|
    ensures Represents(Packed(m, c, i), c.Shift(i))
    ensures var n, d := Packed(m, c, i), c.Shift(i);
      forall j :: 0 <= j < |c.blocks| ==> d.EndOf(j) <= |n| && c.EndOf(j) <= |m| && Payload(m, c, j) == Payload(n, d, j)
  {
    hide HeaderAt, Payload, Chain.Valid;
    c.ShiftKeepsValid(i);
    var n, d := Packed(m, c, i), c.Shift(i);
    assert HeaderAt(m, c, i);
    forall j | 0 <= j < |c.blocks|
      ensures c.EndOf(j) <= |m| && d.EndOf(j) <= |n| && HeaderAt(n, d, j) && Payload(m, c, j) == Payload(n, d, j)
    {
      assert HeaderAt(m, c, j);
      c.BeforeEnd(j);
      if j == i + 1 { PackedMoves(m, c, i); } else { PackedKeepsPayload(m, c, i, j); PackedKeepsHeader(m, c, i, j); }
    }
    SentinelMoves(m, c, i);
  }

  lemma SentinelMoves(m: seq<int>, c: Chain, i: nat)
    requires Represents(m, c) && i < |c.blocks|
    ensures var n, d := Packed(m, c, i), c.Shift(i);
            |n| == |m| && d.end + d.h <= |n| && n[d.end] == 0 && n[d.end + 1] == NULL
  {
    assert HeaderAt(m, c, i);
    ShiftIsClear(c, i, i);
  }

  // ---------- calls and runs on memory ----------

  /** The buffer after a call. */
  function Image(m: seq<int>, c: Chain, call: Call): seq<int>
    requires |c.blocks| >= 1
  {
    match call
    case DoAlloc(size) => Linked(m, c, size)
    case DoFree(a) => var k := c.Find(a, 1); if k < |c.blocks| then Unlinked(m, c, k) else m
    case DoShift(i) => if i < |c.blocks| then Packed(m, c, i) else m
  }

  /** m_alloc has no limit check: an allocation behind the last block must leave room for the sentinel. */
  predicate HasRoom(m: seq<int>, c: Chain, call: Call)
    requires |c.blocks| >= 1
  {
    call.DoAlloc? && c.FirstFit(call.size, 0) == |c.blocks| ==> c.end + c.h + call.size + c.h <= |m|
  }

  /** The number block i has after a call, unless the call releases it. */
  function Track(c: Chain, call: Call, i: nat): Option<nat>
    requires |c.blocks| >= 1
  {
    match call
    case DoAlloc(size) => Some(if i <= c.FirstFit(size, 0) then i else i + 1)
    case DoFree(a) => var k := c.Find(a, 1); if i == k then None else Some(if i < k then i else i - 1)
    case DoShift(_) => Some(i)
  }

  /** Block i of (m, c) is block j of (n, d), with the same size and the same payload. */
  ghost predicate SameBlock(m: seq<int>, c: Chain, i: nat, n: seq<int>, d: Chain, j: nat) {
    && i < |c.blocks| && j < |d.blocks| && c.EndOf(i) <= |m| && d.EndOf(j) <= |n|
    && c.blocks[i].size == d.blocks[j].size && Payload(m, c, i) == Payload(n, d, j)
  }

  lemma ImageSize(m: seq<int>, c: Chain, call: Call)
    requires |c.blocks| >= 1
    ensures |Image(m, c, call)| == |m|
  {
    hide Chain.FirstFit, Chain.Find;
  }

  lemma CallRepresents(m: seq<int>, c: Chain, call: Call)
    requires Represents(m, c) && HasRoom(m, c, call)
    ensures Represents(Image(m, c, call), Apply(c, call)) && |Image(m, c, call)| == |m|
  {
    hide Represents, Linked, Unlinked, Packed;
    HeaderOf(m, c, 0);
    ImageSize(m, c, call);
    match call
    case DoAlloc(size) =>
      if c.FirstFit(size, 0) < |c.blocks| { LinkedInGap(m, c, size); } else { LinkedAtEnd(m, c, size); }
    case DoFree(a) =>
      var k := c.Find(a, 1);
      if k < |c.blocks| { UnlinkedRepresents(m, c, k); }
    case DoShift(i) =>
      if i < |c.blocks| { PackedRepresents(m, c, i); }
  }

  /** A block that keeps its place keeps its payload under any number. */
  lemma SamePlace(m: seq<int>, c: Chain, i: nat, n: seq<int>, d: Chain, j: nat)
    requires i < |c.blocks| && j < |d.blocks| && c.blocks[i] == d.blocks[j] && c.h == d.h && |m| == |n|
    requires c.EndOf(i) <= |m| && d.EndOf(j) <= |n|
    requires (Payload(m, c, i) == Payload(n, c, i) || Payload(m, d, j) == Payload(n, d, j))
    ensures SameBlock(m, c, i, n, d, j)
  {
  }

  /** Any call keeps the payload of every block it does not release. */
  lemma CallKeepsBlock(m: seq<int>, c: Chain, call: Call, i: nat)
    requires Represents(m, c) && HasRoom(m, c, call) && i < |c.blocks| && Track(c, call, i).Some?
    ensures SameBlock(m, c, i, Image(m, c, call), Apply(c, call), Track(c, call, i).value)
  {
    hide Represents, Linked, Unlinked, Packed, SameBlock, Payload, Chain.Valid, Chain.FirstFit, Chain.Find;
    HeaderOf(m, c, i);
    ImageSize(m, c, call);
    var n, d, j := Image(m, c, call), Apply(c, call), Track(c, call, i).value;
    match call
    case DoAlloc(size) =>
      if c.FirstFit(size, 0) < |c.blocks| { LinkedInGap(m, c, size); } else { LinkedAtEnd(m, c, size); }
      assert c.EndOf(i) <= |m|;
      SamePlace(m, c, i, n, d, j);
    case DoFree(a) =>
      var k := c.Find(a, 1);
      if k < |c.blocks| { UnlinkedRepresents(m, c, k); HeaderOf(n, d, j); }
      SamePlace(m, c, i, n, d, j);
    case DoShift(k) =>
      if k < |c.blocks| {
        PackedRepresents(m, c, k);
        ShiftedBlock(m, c, k, n, i);
      } else {
        SamePlace(m, c, i, n, d, j);
      }
  }

  lemma ShiftedBlock(m: seq<int>, c: Chain, k: nat, n: seq<int>, i: nat)
    requires k < |c.blocks| && i < |c.blocks| && c.EndOf(i) <= |m| && c.Shift(k).EndOf(i) <= |n|
    requires Payload(m, c, i) == Payload(n, c.Shift(k), i)
    ensures SameBlock(m, c, i, n, c.Shift(k), i)
  {
  }

  /** alloc_buffer and the routines that walk its headers; pointers are offsets into the buffer. */
  class Heap {
    const mem: array<int>
    const h: nat            // sizeof(alloc_chain)
    ghost var chain: Chain

    ghost predicate Valid()
      reads this, mem
    {
      chain.h == h && Represents(mem[..], chain)
    }

    /** m_init_alloc on a zeroed buffer. */
    constructor (size: nat, header: nat)
      requires header >= 2 && size >= 3 * header
      ensures Valid() && fresh(mem) && mem.Length == size && h == header
      ensures chain == Chain(header, [Block(0, 0)], header + header % 4)
    {
      mem := new int[size](i => 0);
      h := header;
      chain := Chain(header, [Block(0, 0)], header + header % 4);
      new;
      var next := h + h % 4;
      mem[0] := 0;
      mem[1] := next;
      mem[next + 1] := NULL;
      assert HeaderAt(mem[..], chain, 0);
    }

    /** m_alloc at the sentinel. */
    method Append(alloc_ptr: nat, size: nat) returns (ptr: nat)
      requires Valid() && alloc_ptr == chain.end && chain.FirstFit(size, 0) == |chain.blocks|
      requires chain.end + h + size + h <= mem.Length
      modifies this`chain, mem
      ensures Valid() && chain == old(chain).Alloc(size) && ptr == old(chain).Added(size).at + h
      ensures mem[..] == Image(old(mem[..]), old(chain), DoAlloc(size))
      ensures SamePayloads(old(mem[..]), mem[..], old(chain))
    {
      hide Represents, SamePayloads, Chain.Alloc, Chain.FirstFit;
      ghost var m, c := mem[..], chain;
      HeaderOf(m, c, 0);
      Appends(m, c, size);
      mem[alloc_ptr] := size;
      mem[alloc_ptr + 1] := alloc_ptr + h + size;
      var temp := mem[alloc_ptr + 1];
      mem[temp + 1] := NULL;
      mem[temp] := 0;
      assert mem[..] == m[c.end := size][c.end + 1 := temp][temp + 1 := NULL][temp := 0];
      chain := c.Alloc(size);
      ptr := alloc_ptr + h;
    }

    /** m_alloc in the gap behind block i, whose header is at temp. */
    method Insert(temp: nat, alloc_ptr: nat, size: nat, ghost i: nat) returns (ptr: nat)
      requires Valid() && i < |chain.blocks| && chain.FirstFit(size, 0) == i
      requires temp == chain.blocks[i].at && alloc_ptr == chain.NextOf(i)
      modifies this`chain, mem
      ensures Valid() && chain == old(chain).Alloc(size) && ptr == old(chain).Added(size).at + h
      ensures mem[..] == Image(old(mem[..]), old(chain), DoAlloc(size))
      ensures SamePayloads(old(mem[..]), mem[..], old(chain))
    {
      hide Represents, SamePayloads, Chain.Alloc, Chain.FirstFit;
      ghost var m, c := mem[..], chain;
      HeaderOf(m, c, i);
      Inserts(m, c, size);
      var candidate := temp + (mem[temp] + h);
      mem[candidate] := size;
      mem[temp + 1] := candidate;
      mem[candidate + 1] := alloc_ptr;
      assert mem[..] == m[candidate := size][temp + 1 := candidate][candidate + 1 := alloc_ptr];
      chain := c.Alloc(size);
      ptr := candidate + h;
    }

    /** m_alloc */
    method Alloc(size: nat) returns (ptr: nat)
      requires Valid()
      requires chain.FirstFit(size, 0) == |chain.blocks| ==> chain.end + h + size + h <= mem.Length
      modifies this`chain, mem
      ensures Valid() && chain == old(chain).Alloc(size) && ptr == old(chain).Added(size).at + h
      ensures mem[..] == Image(old(mem[..]), old(chain), DoAlloc(size))
      ensures SamePayloads(old(mem[..]), mem[..], old(chain))
    {
      hide Represents, SamePayloads, Chain.Alloc, Image;
      ghost var m, c := mem[..], chain;
      var alloc_ptr, temp := 0, NULL;
      ghost var i: nat := 0;
      HeaderOf(m, c, 0);
      while true
        invariant chain == c && mem[..] == m && i <= |c.blocks|
        invariant alloc_ptr == (if i < |c.blocks| then c.blocks[i].at else c.end)
        invariant c.FirstFit(size, i) == c.FirstFit(size, 0)
        decreases |c.blocks| - i
      {
        HeaderOf(m, c, i);
        if mem[alloc_ptr + 1] == NULL {
          ptr := Append(alloc_ptr, size);
          return;
        }
        temp := alloc_ptr;
        alloc_ptr := mem[alloc_ptr + 1];
        if alloc_ptr >= temp + (mem[temp] + h) + (h + size) {
          ptr := Insert(temp, alloc_ptr, size, i);
          return;
        }
        i := i + 1;
      }
    }

    /** m_free at the header whose link is the one to release: block i, or the last before the sentinel. */
    method Unlink(alloc_ptr: nat, ghost i: nat)
      requires Valid() && i < |chain.blocks| && alloc_ptr == chain.blocks[i].at
      requires chain.Find(chain.NextOf(i), 1) == i + 1
      modifies this`chain, mem
      ensures var ptr := old(chain).NextOf(i);
        if i + 1 < |old(chain).blocks| then
          && Valid() && chain == old(chain).Free(ptr) && mem[..] == Image(old(mem[..]), old(chain), DoFree(ptr))
          && SamePayloads(old(mem[..]), mem[..], chain) && chain != old(chain)
        else !Valid() && mem[..] == Severed(old(mem[..]), old(chain))
    {
      hide Represents, SamePayloads, Image, Severed, Chain.Free, Chain.Valid, Chain.Find;
      ghost var m, c := mem[..], chain;
      HeaderOf(m, c, i);
      if i + 1 < |c.blocks| { BlockFreed(m, c, i); } else { SentinelFreed(m, c); }
      var temp := mem[alloc_ptr + 1];
      mem[alloc_ptr + 1] := mem[temp + 1];
      mem[temp] := 0;
      mem[temp + 1] := NULL;
      assert mem[..] == Cleared(m, alloc_ptr, temp);
      chain := if i + 1 < |c.blocks| then c.Free(temp) else c;
    }

    /** The loop of m_free: the header whose link is ptr - h, or NULL. */
    method HeaderBefore(ptr: int) returns (alloc_ptr: int, ghost i: nat)
      requires Valid() && ptr - h != NULL
      ensures alloc_ptr == NULL ==> chain.Find(ptr - h, 1) == |chain.blocks| && ptr - h != chain.end
      ensures alloc_ptr != NULL ==>
        && i < |chain.blocks| && alloc_ptr == chain.blocks[i].at && chain.NextOf(i) == ptr - h
        && chain.Find(ptr - h, 1) == i + 1
    {
      hide Represents, HeaderAt, Chain.Valid, Chain.Find, Chain.EndOf, AddressOf;
      ghost var m, c := mem[..], chain;
      LinkOf(m, c, 0);
      NoBlockAtEnd(c);
      alloc_ptr := 0;
      i := 0;
      while alloc_ptr != NULL
        invariant i <= |c.blocks| + 1 && alloc_ptr == AddressOf(c, i) && (i > |c.blocks| ==> alloc_ptr == NULL)
        invariant c.Find(ptr - h, 1) == if i < |c.blocks| then c.Find(ptr - h, i + 1) else |c.blocks|
        invariant i >= |c.blocks| ==> ptr - h != c.end
        decreases |c.blocks| + 1 - i
      {
        LinkOf(m, c, i);
        if i < |c.blocks| { FindUnfolds(c, ptr - h, i + 1); }
        if mem[alloc_ptr + 1] == ptr - h {
          return;
        }
        alloc_ptr := mem[alloc_ptr + 1];
        i := i + 1;
      }
      AddressesEnd(c, i);
    }

    /** m_free; releasing the address of the sentinel's payload cuts the sentinel off and leaves no chain. */
    method Free(ptr: int)
      requires Valid() && ptr - h != NULL
      modifies this`chain, mem
      ensures Valid() <==> ptr - h != old(chain).end
      ensures ptr - h != old(chain).end ==>
        && chain == old(chain).Free(ptr - h) && mem[..] == Image(old(mem[..]), old(chain), DoFree(ptr - h))
        && SamePayloads(old(mem[..]), mem[..], chain)
        && (chain == old(chain) ==> mem[..] == old(mem[..]))
      ensures ptr - h == old(chain).end ==> mem[..] == Severed(old(mem[..]), old(chain))
    {
      hide Represents, SamePayloads, Image, Severed, Chain.Free, Chain.Valid, Chain.Find;
      ghost var m, c := mem[..], chain;
      HeaderOf(m, c, 0);
      var alloc_ptr, i := HeaderBefore(ptr);
      if alloc_ptr == NULL {
        NothingFreed(m, c, ptr - h);
      } else {
        if i + 1 < |c.blocks| { BlockFreed(m, c, i); }
        Unlink(alloc_ptr, i);
      }
    }

    /** m_get_allocated_space */
    method AllocatedSpace() returns (space: nat)
      requires Valid()
      ensures space == chain.Allocated() + h
    {
      hide Represents;
      var alloc_ptr := 0;
      space := 0;
      ghost var i: nat := 0;
      HeaderOf(mem[..], chain, 0);
      while true
        invariant i <= |chain.blocks| && alloc_ptr == (if i < |chain.blocks| then chain.blocks[i].at else chain.end)
        invariant space == Total(chain.blocks[..i])
        decreases |chain.blocks| - i
      {
        HeaderOf(mem[..], chain, i);
        if mem[alloc_ptr + 1] == NULL {
          assert chain.blocks[..i] == chain.blocks;
          return space + (mem[alloc_ptr] + h);
        }
        TotalOfSum(chain.blocks[..i], [chain.blocks[i]]);
        assert chain.blocks[..i] + [chain.blocks[i]] == chain.blocks[..i + 1];
        space := space + mem[alloc_ptr];
        alloc_ptr := mem[alloc_ptr + 1];
        i := i + 1;
      }
    }

    /** m_next_chunk: the payload of the next block, or NULL if that one is empty or the sentinel. */
    method NextChunk(chunk: nat, ghost i: nat) returns (next: int)
      requires Valid() && i < |chain.blocks| && chunk == chain.blocks[i].at + h
      ensures next == if i + 1 < |chain.blocks| && chain.blocks[i + 1].size > 0 then chain.blocks[i + 1].at + h
                      else NULL
    {
      HeaderOf(mem[..], chain, i);
      HeaderOf(mem[..], chain, i + 1);
      var alloc_ptr := mem[chunk - h + 1];
      next := if mem[alloc_ptr] == 0 then NULL else alloc_ptr + h;
    }

    /** The memory accesses of m_shift_next_chunk. */
    method Pack(chunk: nat, ghost i: nat) returns (next_ptr: nat)
      requires Valid() && i < |chain.blocks| && chunk == chain.blocks[i].at + h
      modifies mem
      ensures mem[..] == Packed(old(mem[..]), chain, i) && next_ptr == chain.EndOf(i)
    {
      hide Represents, Chain.Valid, Packed, Moved;
      ghost var m := mem[..];
      HeaderOf(m, chain, i);
      HeaderOf(m, chain, i + 1);
      ShiftIsClear(chain, i, i);
      PackedIsMoved(m, chain, i);
      if i + 1 < |chain.blocks| { chain.BeforeEnd(i + 1); }
      var alloc_ptr := chunk - h;
      next_ptr := mem[alloc_ptr + 1];
      var end := alloc_ptr + h + mem[alloc_ptr];
      var gap := next_ptr - end;
      if gap > 0 {
        var len := mem[next_ptr] + h;
        ghost var l := m[alloc_ptr + 1 := end];
        ghost var n := Moved(l, end, next_ptr, len);
        mem[alloc_ptr + 1] := end;
        assert mem[..] == l;
        MoveDown(mem, end, next_ptr, len);
        assert mem[..] == n;
        next_ptr := end;
      }
    }

    /** m_shift_next_chunk */
    method ShiftNextChunk(chunk: nat, ghost i: nat) returns (next: int)
      requires Valid() && i < |chain.blocks| && chunk == chain.blocks[i].at + h
      modifies this`chain, mem
      ensures Valid() && chain == old(chain).Shift(i) && mem[..] == Image(old(mem[..]), old(chain), DoShift(i))
      ensures forall j :: 0 <= j < |chain.blocks| ==>
        chain.EndOf(j) <= mem.Length && old(chain).EndOf(j) <= mem.Length
        && Payload(mem[..], chain, j) == Payload(old(mem[..]), old(chain), j)
      ensures next == if i + 1 < |chain.blocks| && chain.blocks[i + 1].size > 0 then chain.blocks[i + 1].at + h
                      else NULL
    {
      hide Represents, Payload, Packed;
      ghost var m, c := mem[..], chain;
      PackedRepresents(m, c, i);
      var next_ptr := Pack(chunk, i);
      chain := c.Shift(i);
      HeaderOf(mem[..], chain, i + 1);
      next := if mem[next_ptr] == 0 then NULL else next_ptr + h;
    }
  }

  /** The header words of block i, or of the sentinel behind the last block. */
  lemma HeaderOf(m: seq<int>, c: Chain, i: nat)
    requires Represents(m, c) && i <= |c.blocks|
    ensures |c.blocks| >= 1 && c.blocks[0].at == 0 && c.h >= 2 && c.end + c.h <= |m| && c.Valid()
    ensures if i < |c.blocks| then HeaderAt(m, c, i) && c.blocks[i].at + c.h <= c.end
            else m[c.end] == 0 && m[c.end + 1] == NULL
  {
    if i < |c.blocks| {
      assert HeaderAt(m, c, i);
      c.BeforeEnd(i);
    }
  }
}
