/** The streaming part of md5.c: buffering, bit counter and padding around MD5Transform. */
module Md5 {
  import opened Bytes

  const TWO_32 := 0x1_0000_0000
  const TWO_64 := 0x1_0000_0000_0000_0000

  /** The four chaining words. */
  datatype Chain = Chain(a: nat, b: nat, c: nat, d: nat)

  /** MD5Transform is any function of the chain and a 64-byte block. */
  type Transform = (Chain, seq<byte>) -> Chain

  /** Section 3.3 of RFC 1321. */
  const INIT := Chain(0x67452301, 0xefcdab89, 0x98badcfe, 0x10325476)

  // ---------- the one-shot definition ----------

  /** The transform over the 64-byte blocks of data, in order. */
  function Blocks(f: Transform, chain: Chain, data: seq<byte>): Chain
    decreases |data|
  {
    if |data| < 64 then chain else Blocks(f, f(chain, data[..64]), data[64..])
  }

  /** What is behind the last full block. */
  function Rest(data: seq<byte>): (r: seq<byte>)
    ensures |r| < 64
  {
    if |data| < 64 then data else Rest(data[64..])
  }

  /** The number of full blocks. */
  function Full(data: seq<byte>): (n: nat)
    ensures |data| == 64 * n + |Rest(data)|
  {
    if |data| < 64 then 0 else 1 + Full(data[64..])
  }

  function Zeros(n: nat): (z: seq<byte>)
    ensures |z| == n
  {
    seq(n, _ => 0)
  }

  function LittleEndian(n: nat, count: nat): (b: seq<byte>)
    ensures |b| == count
  {
    if count == 0 then [] else [n % 0x100] + LittleEndian(n / 0x100, count - 1)
  }

  /** Zero bytes between the 0x80 and the length. */
  function PadLength(r: nat): (k: nat)
    requires r < 64
  {
    if r < 56 then 55 - r else 119 - r
  }

  /** Sections 3.1 and 3.2 of RFC 1321: padding to 56 modulo 64, then the bit length modulo 2^64. */
  function Padded(msg: seq<byte>): seq<byte> {
    msg + [0x80] + Zeros(PadLength(|Rest(msg)|)) + LittleEndian(8 * |msg| % TWO_64, 8)
  }

  function Digest(f: Transform, msg: seq<byte>): Chain {
    Blocks(f, INIT, Padded(msg))
  }

  // ---------- what the digest is ----------

  /** chains lists the chaining value in front of each block of data and behind the last. */
  ghost predicate Chained(f: Transform, data: seq<byte>, chains: seq<Chain>, k: nat) {
    k + 1 < |chains| && 64 * k + 64 <= |data| && chains[k + 1] == f(chains[k], data[64 * k..64 * k + 64])
  }

  lemma {:induction false} BlocksAreChained(f: Transform, chain: Chain, data: seq<byte>) returns (chains: seq<Chain>)
    ensures |chains| == |data| / 64 + 1 && chains[0] == chain && chains[|data| / 64] == Blocks(f, chain, data)
    ensures forall k :: 0 <= k < |data| / 64 ==> Chained(f, data, chains, k)
    decreases |data|
  {
    chains := [chain];
    if |data| >= 64 {
      var rest := BlocksAreChained(f, f(chain, data[..64]), data[64..]);
      chains := [chain] + rest;
      forall k | 0 <= k < |data| / 64
        ensures Chained(f, data, chains, k)
      {
        if k > 0 {
          assert Chained(f, data[64..], rest, k - 1);
          assert data[64..][64 * (k - 1)..64 * (k - 1) + 64] == data[64 * k..64 * k + 64];
        }
      }
    }
  }

  /** Section 3.4 of RFC 1321: from the initial value the transform takes the blocks of the padded message in order. */
  lemma DigestIsChained(f: Transform, msg: seq<byte>) returns (chains: seq<Chain>)
    ensures var p := Padded(msg);
      && |chains| == |p| / 64 + 1 && chains[0] == INIT && chains[|p| / 64] == Digest(f, msg)
      && forall k :: 0 <= k < |p| / 64 ==> Chained(f, p, chains, k)
  {
    hide Padded, Blocks, Chained;
    chains := BlocksAreChained(f, INIT, Padded(msg));
  }

  /** Section 3.3 of RFC 1321: the bytes 01 to ef and back. */
  lemma InitialWords()
    ensures INIT.a == Weighed([0x01, 0x23, 0x45, 0x67]) && INIT.b == Weighed([0x89, 0xab, 0xcd, 0xef])
    ensures INIT.c == Weighed([0xfe, 0xdc, 0xba, 0x98]) && INIT.d == Weighed([0x76, 0x54, 0x32, 0x10])
  {
    FourBytes(0x01, 0x23, 0x45, 0x67);
    FourBytes(0x89, 0xab, 0xcd, 0xef);
    FourBytes(0xfe, 0xdc, 0xba, 0x98);
    FourBytes(0x76, 0x54, 0x32, 0x10);
  }

  lemma FourBytes(a: byte, b: byte, c: byte, d: byte)
    ensures Weighed([a, b, c, d])
         == a as int + 0x100 * b as int + 0x1_0000 * c as int + 0x100_0000 * d as int
  {
    assert [a, b, c, d][1..] == [b, c, d] && [b, c, d][1..] == [c, d] && [c, d][1..] == [d] && [d][1..] == [];
    assert Weighed([d]) == d as int + 0x100 * Weighed([]);
    assert Weighed([c, d]) == c as int + 0x100 * Weighed([d]);
    assert Weighed([b, c, d]) == b as int + 0x100 * Weighed([c, d]);
  }

  /** Bytes as a number, lowest first. */
  function Weighed(b: seq<byte>): nat {
    if b == [] then 0 else b[0] + 0x100 * Weighed(b[1..])
  }

  lemma {:induction false} LittleEndianWeighs(n: nat, count: nat)
    requires n < Scaled(1, count)
    ensures Weighed(LittleEndian(n, count)) == n
    decreases count
  {
    if count > 0 {
      LittleEndianWeighs(n / 0x100, count - 1);
      assert LittleEndian(n, count)[1..] == LittleEndian(n / 0x100, count - 1);
    }
  }

  /** Section 3 of RFC 1321: the message, one bit, zeros, and the bit length modulo 2^64 in eight bytes. */
  lemma PaddingIs(msg: seq<byte>)
    ensures var p, n := Padded(msg), |msg|;
      && n + 9 <= |p| && p[..n] == msg && p[n] == 0x80
      && (forall i :: n < i < |p| - 8 ==> p[i] == 0)
      && Weighed(p[|p| - 8..]) == 8 * n % TWO_64
  {
    hide LittleEndian, Rest, Weighed, Scaled;
    var bits := 8 * |msg| % TWO_64;
    EightBytes();
    LittleEndianWeighs(bits, 8);
    var p, l := Padded(msg), LittleEndian(bits, 8);
    assert p[|p| - 8..] == l;
  }

  lemma EightBytes()
    ensures Scaled(1, 8) == TWO_64
  {
    ScaledByFour(1);
    assert Scaled(1, 6) == 0x100 * Scaled(1, 5) == 0x1_0000 * Scaled(1, 4);
    assert Scaled(1, 8) == 0x100 * Scaled(1, 7) == 0x1_0000 * Scaled(1, 6);
  }

  /** The padding is the shortest one that leaves room for the length in the last of a whole number of blocks. */
  lemma PaddedIsWhole(msg: seq<byte>)
    ensures |Padded(msg)| % 64 == 0 && |msg| + 9 <= |Padded(msg)| < |msg| + 9 + 64
  {
    hide Rest, Full, LittleEndian, Zeros;
    var n, r := Full(msg), |Rest(msg)|;
    assert |Padded(msg)| == 64 * (n + if r < 56 then 1 else 2);
  }

  /** Blocks can be taken as they come. */
  lemma {:induction false} BlocksAppend(f: Transform, chain: Chain, m: seq<byte>, x: seq<byte>)
    ensures Blocks(f, chain, m + x) == Blocks(f, Blocks(f, chain, m), Rest(m) + x)
    ensures Rest(m + x) == Rest(Rest(m) + x)
    decreases |m|
  {
    if |m| >= 64 {
      assert (m + x)[..64] == m[..64] && (m + x)[64..] == m[64..] + x;
      BlocksAppend(f, f(chain, m[..64]), m[64..], x);
    }
  }

  lemma OneBlock(f: Transform, chain: Chain, data: seq<byte>)
    requires |data| >= 64
    ensures Blocks(f, chain, data) == Blocks(f, f(chain, data[..64]), data[64..]) && Rest(data) == Rest(data[64..])
  {
  }

  /** What is held back and the front of new data make up a block. */
  lemma FillsBlock(f: Transform, chain: Chain, held: seq<byte>, data: seq<byte>)
    requires |held| < 64 <= |held| + |data|
    ensures var room := 64 - |held|;
            && Blocks(f, chain, held + data) == Blocks(f, f(chain, held + data[..room]), data[room..])
            && Rest(held + data) == Rest(data[room..])
  {
    hide Blocks, Rest;
    var room := 64 - |held|;
    OneBlock(f, chain, held + data);
    assert (held + data)[..64] == held + data[..room] && (held + data)[64..] == data[room..];
  }

  lemma NoBlock(f: Transform, chain: Chain, data: seq<byte>)
    requires |data| < 64
    ensures Blocks(f, chain, data) == chain && Rest(data) == data
  {
  }

  /** n times 256 to the power k. */
  function Scaled(n: nat, k: nat): nat {
    if k == 0 then n else 0x100 * Scaled(n, k - 1)
  }

  lemma {:induction false} JoinedBytes(low: nat, high: nat, k: nat, m: nat)
    requires low < Scaled(1, k)
    ensures LittleEndian(low, k) + LittleEndian(high, m) == LittleEndian(low + Scaled(high, k), k + m)
  {
    if k > 0 {
      JoinedBytes(low / 0x100, high, k - 1, m);
      LowByte(low, Scaled(high, k - 1));
    }
  }

  lemma LowByte(a: nat, b: nat)
    ensures (a + 0x100 * b) % 0x100 == a % 0x100 && (a + 0x100 * b) / 0x100 == a / 0x100 + b
  {
  }

  /** The two counter words written one after the other are the 64-bit length. */
  lemma TwoWords(low: nat, high: nat)
    requires low < TWO_32
    ensures LittleEndian(low, 4) + LittleEndian(high, 4) == LittleEndian(low + TWO_32 * high, 8)
  {
    JoinedBytes(low, high, 4, 4);
    ScaledByFour(high);
    ScaledByFour(1);
  }

  lemma ScaledByFour(n: nat)
    ensures Scaled(n, 4) == TWO_32 * n
  {
    assert Scaled(n, 1) == 0x100 * n;
    assert Scaled(n, 2) == 0x1_0000 * n;
    assert Scaled(n, 3) == 0x100_0000 * n;
  }

  /** Bytes beyond whole blocks, from a number of bits. */
  lemma SmallPart(low: nat, r: nat, m: int)
    requires low == 8 * r + 512 * m && r < 64
    ensures low / 8 % 64 == r
  {
    var n := r + 64 * m;
    assert low == 8 * n;
    assert low / 8 == n;
  }

  // ---------- the context ----------

  /** Addition of unsigned 32-bit words. */
  function Add32(a: nat, b: nat): nat {
    (a + b) % TWO_32
  }

  lemma Add32Is(a: nat, b: nat)
    requires a < TWO_32 && b < TWO_32
    ensures Add32(a, b) == if a + b < TWO_32 then a + b else a + b - TWO_32
  {
  }

  /** MD5Context; `msg` is what was fed so far, `turns` how often the 64-bit counter has wrapped around. */
  class Context {
    const f: Transform
    var buf: Chain
    var low: nat            // bits[0]
    var high: nat           // bits[1]
    const pending: array<byte>
    ghost var msg: seq<byte>
    ghost var turns: nat

    ghost predicate Counts()
      reads `low, `high, `msg, `turns
    {
      low < TWO_32 && high < TWO_32 && 8 * |msg| == low + TWO_32 * high + TWO_64 * turns
    }

    ghost predicate Valid()
      reads this, pending
    {
      && pending.Length == 64 && Counts()
      && buf == Blocks(f, INIT, msg) && pending[..|Rest(msg)|] == Rest(msg)
    }

    /** MD5Init */
    constructor (f: Transform)
      ensures Valid() && msg == [] && this.f == f && fresh(pending)
    {
      this.f, buf, low, high, msg, turns := f, INIT, 0, 0, [], 0;
      pending := new byte[64];
    }

    /** The two-word counter is the bit length modulo 2^64. */
    lemma CounterIsBitLength()
      requires Counts()
      ensures low + TWO_32 * high == 8 * |msg| % TWO_64
    {
    }

    /** Bytes already in the buffer, from the counter alone. */
    lemma InBuffer()
      requires Counts()
      ensures low / 8 % 64 == |Rest(msg)|
    {
      SmallPart(low, |Rest(msg)|, Full(msg) - 0x80_0000 * high - 0x80_0000_0000_0000 * turns);
    }

    /** The words of the sum: a carry out of the low word shows in that it got smaller. */
    static lemma Carries(low: nat, high: nat, added: nat, carried: nat)
      requires low < TWO_32 && high < TWO_32 && added < TWO_32 && carried < 8
      ensures var l := Add32(low, added);
              var h := Add32(if l < low then Add32(high, 1) else high, carried);
              var before, after := low + TWO_32 * high + (added + TWO_32 * carried), l + TWO_32 * h;
              l < TWO_32 && h < TWO_32 && (after == before || after == before - TWO_64)
    {
      hide Add32;
      Add32Is(low, added);
      Add32Is(high, 1);
      Add32Is(if Add32(low, added) < low then Add32(high, 1) else high, carried);
    }

    /** The counter part of MD5Update. */
    method AddBits(len: nat)
      requires low < TWO_32 && high < TWO_32 && len < TWO_32
      modifies `low, `high
      ensures low < TWO_32 && high < TWO_32
      ensures var before, after := old(low) + TWO_32 * old(high) + 8 * len, low + TWO_32 * high;
              after == before || after == before - TWO_64
    {
      hide Add32;
      assert len * 8 == len * 8 % TWO_32 + TWO_32 * (len / 0x2000_0000) && len / 0x2000_0000 < 8;
      Carries(low, high, len * 8 % TWO_32, len / 0x2000_0000);
      var t := low;
      low := Add32(t, len * 8 % TWO_32);
      if low < t {
        high := Add32(high, 1);
      }
      high := Add32(high, len / 0x2000_0000);
    }

    /** MD5Transform over a block that was copied into the buffer. */
    method TransformBlock(block: seq<byte>, p: nat)
      requires pending.Length == 64 && p + |block| == 64
      modifies this`buf, pending
      ensures buf == f(old(buf), old(pending[..p]) + block)
    {
      CopyIn(pending, p, block);
      assert pending[..] == old(pending[..p]) + block by {
        assert pending[..] == pending[..p + |block|];
      }
      buf := f(buf, pending[..]);
    }

    /** MD5Update: the message grows by data and the counter with it. */
    method Count(data: seq<byte>)
      requires Counts() && |data| < TWO_32
      modifies `low, `high, `msg, `turns
      ensures Counts() && msg == old(msg) + data
    {
      ghost var before := low + TWO_32 * high;
      AddBits(|data|);
      msg := msg + data;
      if low + TWO_32 * high != before + 8 * |data| {
        turns := turns + 1;
      }
    }

    /** MD5Update: all full blocks of data, straight from it. */
    method TransformFull(data: seq<byte>) returns (left: seq<byte>)
      requires pending.Length == 64
      modifies `buf, pending
      ensures buf == Blocks(f, old(buf), data) && left == Rest(data)
    {
      hide Blocks, Rest;
      left := data;
      while |left| >= 64
        invariant Blocks(f, buf, left) == Blocks(f, old(buf), data) && Rest(left) == Rest(data)
        decreases |left|
      {
        OneBlock(f, buf, left);
        assert pending[..0] + left[..64] == left[..64];
        TransformBlock(left[..64], 0);
        left := left[64..];
      }
      NoBlock(f, buf, left);
    }

    /** MD5Update */
    method Update(data: seq<byte>)
      requires Valid() && |data| < TWO_32
      modifies this, pending
      ensures Valid() && msg == old(msg) + data
    {
      hide Blocks, Rest, Counts;
      var t := low / 8 % 64;
      InBuffer();
      ghost var held := Rest(msg);
      BlocksAppend(f, INIT, msg, data);
      Count(data);
      var left := data;
      if t != 0 {
        var room := 64 - t;
        if |left| < room {
          NoBlock(f, buf, held + left);
          CopyIn(pending, t, left);
          return;
        }
        FillsBlock(f, buf, held, left);
        TransformBlock(left[..room], t);
        left := left[room..];
      } else {
        assert held + left == left;
      }
      left := TransformFull(left);
      CopyIn(pending, 0, left);
      assert pending[..|left|] == pending[0..|left|];
    }

    /** memset(in + p, 0, n) */
    method Clear(p: nat, n: nat)
      requires pending.Length == 64 && p + n <= 64
      modifies pending
      ensures pending[..p] == old(pending[..p]) && pending[..p + n] == old(pending[..p]) + Zeros(n)
    {
      CopyIn(pending, p, seq(n, _ => 0));
      assert seq(n, _ => 0) == Zeros(n);
    }

    /** MD5Final, up to the digest it copies out. */
    method Final() returns (digest: Chain)
      requires Valid()
      modifies this, pending
      ensures digest == Digest(f, old(msg))
    {
      hide Blocks, Rest, LittleEndian;
      ghost var held, bits := Rest(msg), LittleEndian(low, 4) + LittleEndian(high, 4);
      InBuffer();
      var count := low / 8 % 64;
      FinalBlocks(count, held, bits);
      pending[count] := 0x80;
      assert pending[..count + 1] == held + [0x80];
      var p := count + 1;
      count := 64 - 1 - count;
      if count < 8 {
        Clear(p, count);
        assert pending[..] == pending[..p + count] == held + [0x80] + Zeros(count);
        buf := f(buf, pending[..]);
        Clear(0, 56);
        assert pending[..56] == Zeros(56);
      } else {
        Clear(p, count - 8);
        assert pending[..56] == held + [0x80] + Zeros(count - 8);
      }
      ghost var front := pending[..56];
      CopyIn(pending, 56, LittleEndian(low, 4));
      CopyIn(pending, 60, LittleEndian(high, 4));
      assert pending[..] == pending[..64] == front + bits;
      buf := f(buf, pending[..]);
      digest := buf;
    }

    /** The one or two blocks MD5Final hands to the transform are the last ones of the padded message. */
    lemma FinalBlocks(count: nat, held: seq<byte>, bits: seq<byte>)
      requires Counts() && buf == Blocks(f, INIT, msg) && held == Rest(msg) && count == |held|
      requires bits == LittleEndian(low, 4) + LittleEndian(high, 4)
      ensures count < 56 ==> Digest(f, msg) == f(buf, held + [0x80] + Zeros(55 - count) + bits)
      ensures count >= 56 ==> Digest(f, msg) == f(f(buf, held + [0x80] + Zeros(63 - count)), Zeros(56) + bits)
    {
      hide Blocks, Rest, LittleEndian;
      TwoWords(low, high);
      assert 8 * |msg| % TWO_64 == low + TWO_32 * high;
      var k := PadLength(count);
      var tail := [0x80] + Zeros(k) + bits;
      assert Padded(msg) == msg + tail;
      BlocksAppend(f, INIT, msg, tail);
      var x := held + tail;
      if count < 56 {
        assert x == held + [0x80] + Zeros(55 - count) + bits;
        OneBlock(f, buf, x);
        assert x[..64] == x && x[64..] == [];
        NoBlock(f, f(buf, x), []);
      } else {
        var y := f(buf, x[..64]);
        OneBlock(f, buf, x);
        assert x[..64] == held + [0x80] + Zeros(63 - count);
        assert x[64..] == Zeros(56) + bits;
        OneBlock(f, y, x[64..]);
        assert x[64..][..64] == x[64..] && x[64..][64..] == [];
        NoBlock(f, f(y, x[64..]), []);
      }
    }
  }

  function Concatenated(chunks: seq<seq<byte>>): seq<byte> {
    if chunks == [] then [] else Concatenated(chunks[..|chunks| - 1]) + chunks[|chunks| - 1]
  }

  /** However a message is split into calls, the digest is that of the whole message. */
  method HashChunks(f: Transform, chunks: seq<seq<byte>>) returns (digest: Chain)
    requires forall k :: 0 <= k < |chunks| ==> |chunks[k]| < TWO_32
    ensures digest == Digest(f, Concatenated(chunks))
  {
    hide Digest;
    var ctx := new Context(f);
    for k := 0 to |chunks|
      invariant ctx.Valid() && ctx.f == f && fresh(ctx) && fresh(ctx.pending)
      invariant ctx.msg == Concatenated(chunks[..k])
    {
      assert chunks[..k + 1][..k] == chunks[..k];
      ctx.Update(chunks[k]);
    }
    assert chunks[..|chunks|] == chunks;
    digest := ctx.Final();
  }
}
