/** cr_do_crypt: ECB and CBC over a file that is read and rewritten in pieces of 32 bytes. */
module Cbc {
  import opened BlockCiphers

  const CR_MODE_CBC: bv8 := 0x40
  const CR_MODE_ENCRYPT: bv8 := 0x80
  const CR_FILE_BUFFER_SIZE := 32
  const LONGEST := 65504

  /** One block: what is stored, and what the next block is chained with. */
  ghost function CryptBlock(mode: bv8, c: Codec, key: Bytes8, chain: Bytes8, b: Bytes8): (r: (Bytes8, Bytes8))
    requires |chain| == |b| == c.bsize
    requires KeepsSize(c, key)
    ensures |r.0| == |r.1| == c.bsize
  {
    if mode & CR_MODE_ENCRYPT != 0 then
      if mode & CR_MODE_CBC != 0 then
        var x := c.encode(key, Xor(b, chain));
        (x, x)
      else (c.encode(key, b), chain)
    else
      if mode & CR_MODE_CBC != 0 then (Xor(c.decode(key, b), chain), b)
      else (c.decode(key, b), chain)
  }

  /** len bytes are a whole number of blocks of n bytes. */
  predicate Whole(len: nat, n: nat)
    requires n > 0
  {
    len == 0 || (len >= n && Whole(len - n, n))
  }

  /** Section 6.1 and 6.2 of NIST SP 800-38A, block by block. */
  ghost function Crypted(mode: bv8, c: Codec, key: Bytes8, chain: Bytes8, data: Bytes8): (r: Bytes8)
    requires c.bsize > 0 && |chain| == c.bsize && Whole(|data|, c.bsize) && KeepsSize(c, key)
    ensures |r| == |data|
    decreases |data|
  {
    if data == [] then []
    else
      var (x, next) := CryptBlock(mode, c, key, chain, data[..c.bsize]);
      x + Crypted(mode, c, key, next, data[c.bsize..])
  }

  /** For a cipher that inverts, decrypting with the same chaining restores the data. */
  lemma {:induction false} DecryptedIsOriginal(mode: bv8, c: Codec, key: Bytes8, chain: Bytes8, data: Bytes8)
    requires c.bsize > 0 && |chain| == c.bsize && Whole(|data|, c.bsize) && Inverts(c, key)
    requires mode & CR_MODE_ENCRYPT != 0
    ensures KeepsSize(c, key)
    ensures Crypted(mode & !CR_MODE_ENCRYPT, c, key, chain, Crypted(mode, c, key, chain, data)) == data
    decreases |data|
  {
    hide CryptBlock, Crypted, Inverts, KeepsSize;
    InvertsKeepsSize(c, key);
    var mode' := mode & !CR_MODE_ENCRYPT;
    if data == [] {
      NothingLeft(mode, c, key, chain);
      NothingLeft(mode', c, key, chain);
    } else {
      OneBlock(mode, c, key, chain, data);
      var b, rest := data[..c.bsize], data[c.bsize..];
      BlockRestored(mode, c, key, chain, b);
      var (x, next) := CryptBlock(mode, c, key, chain, b);
      DecryptedIsOriginal(mode, c, key, next, rest);
      var all := Crypted(mode, c, key, chain, data);
      OneBlock(mode', c, key, chain, all);
      assert all[..c.bsize] == x && all[c.bsize..] == Crypted(mode, c, key, next, rest);
      assert data == b + rest;
    }
  }

  lemma InvertsKeepsSize(c: Codec, key: Bytes8)
    requires Inverts(c, key)
    ensures KeepsSize(c, key)
  {
  }

  lemma BlockRestored(mode: bv8, c: Codec, key: Bytes8, chain: Bytes8, b: Bytes8)
    requires |chain| == |b| == c.bsize && Inverts(c, key) && KeepsSize(c, key) && mode & CR_MODE_ENCRYPT != 0
    ensures var e := CryptBlock(mode, c, key, chain, b);
            |e.0| == |e.1| == c.bsize && CryptBlock(mode & !CR_MODE_ENCRYPT, c, key, chain, e.0) == (b, e.1)
  {
    ClearEncrypt(mode);
    XorTwice(b, chain);
  }

  lemma ClearEncrypt(mode: bv8)
    ensures (mode & !CR_MODE_ENCRYPT) & CR_MODE_ENCRYPT == 0
    ensures (mode & !CR_MODE_ENCRYPT) & CR_MODE_CBC == mode & CR_MODE_CBC
  {
  }

  /** The first bytes of the result, then the blocks still to be done. */
  lemma OneBlock(mode: bv8, c: Codec, key: Bytes8, chain: Bytes8, data: Bytes8)
    requires c.bsize > 0 && |chain| == c.bsize && Whole(|data|, c.bsize) && data != [] && KeepsSize(c, key)
    ensures |data| >= c.bsize && Whole(|data| - c.bsize, c.bsize)
    ensures var (x, next) := CryptBlock(mode, c, key, chain, data[..c.bsize]);
            Crypted(mode, c, key, chain, data) == x + Crypted(mode, c, key, next, data[c.bsize..])
  {
  }

  // ---------- what each block of the result is ----------

  /** Block k of data. */
  function BlockAt(data: Bytes8, n: nat, k: nat): (b: Bytes8)
    requires k * n + n <= |data|
    ensures |b| == n
  {
    data[k * n..k * n + n]
  }

  /** What block k is chained with: the block of `ciphertext` in front of it, zeros for the first. */
  function Before(iv: Bytes8, ciphertext: Bytes8, n: nat, k: nat): (b: Bytes8)
    requires |iv| == n && k * n <= |ciphertext|
    ensures |b| == n
  {
    if k == 0 then iv else PreviousFits(n, k); BlockAt(ciphertext, n, k - 1)
  }

  lemma PreviousFits(n: nat, k: nat)
    requires k > 0
    ensures (k - 1) * n + n == k * n
  {
  }

  /**
    Sections 6.1 and 6.2 of NIST SP 800-38A on whole strings: block k of `new` comes from block k of `old_`
    alone, and in chained mode from the ciphertext block in front of it.
    */
  ghost predicate Block(mode: bv8, c: Codec, key: Bytes8, iv: Bytes8, old_: Bytes8, new_: Bytes8, k: nat)
    requires KeepsSize(c, key) && |iv| == c.bsize && |old_| == |new_| && k * c.bsize + c.bsize <= |old_|
  {
    var n := c.bsize;
    var b, x := BlockAt(old_, n, k), BlockAt(new_, n, k);
    var encrypts, chains := mode & CR_MODE_ENCRYPT != 0, mode & CR_MODE_CBC != 0;
    && (encrypts && chains ==> x == c.encode(key, Xor(b, Before(iv, new_, n, k))))
    && (!encrypts && chains ==> x == Xor(c.decode(key, b), Before(iv, old_, n, k)))
    && (encrypts && !chains ==> x == c.encode(key, b))
    && (!encrypts && !chains ==> x == c.decode(key, b))
  }

  lemma RestOf(data: Bytes8, n: nat, k: nat)
    requires k > 0 && k * n + n <= |data|
    ensures n <= |data| && (k - 1) * n + n <= |data| - n
    ensures BlockAt(data, n, k) == BlockAt(data[n..], n, k - 1)
  {
    PreviousFits(n, k);
  }

  lemma BeforeRest(iv: Bytes8, next: Bytes8, data: Bytes8, n: nat, k: nat)
    requires k > 0 && k * n + n <= |data| && |iv| == |next| == n && next == data[..n]
    ensures n <= |data| && (k - 1) * n <= |data| - n
    ensures Before(iv, data, n, k) == Before(next, data[n..], n, k - 1)
  {
    PreviousFits(n, k);
    if k == 1 {
      assert BlockAt(data, n, 0) == data[..n];
    } else {
      RestOf(data, n, k - 1);
    }
  }

  lemma FirstBlock(mode: bv8, c: Codec, key: Bytes8, iv: Bytes8, data: Bytes8, x: Bytes8, rest: Bytes8)
    requires c.bsize > 0 && |iv| == c.bsize <= |data| && KeepsSize(c, key) && |x + rest| == |data|
    requires CryptBlock(mode, c, key, iv, data[..c.bsize]).0 == x
    ensures Block(mode, c, key, iv, data, x + rest, 0)
  {
    assert BlockAt(data, c.bsize, 0) == data[..c.bsize] && BlockAt(x + rest, c.bsize, 0) == x;
  }

  /** What the next block is chained with is the ciphertext block just passed. */
  lemma NextChain(mode: bv8, c: Codec, key: Bytes8, iv: Bytes8, b: Bytes8)
    requires |iv| == |b| == c.bsize && KeepsSize(c, key) && mode & CR_MODE_CBC != 0
    ensures var r := CryptBlock(mode, c, key, iv, b); r.1 == if mode & CR_MODE_ENCRYPT != 0 then r.0 else b
  {
  }

  lemma LaterBlock(mode: bv8, c: Codec, key: Bytes8, iv: Bytes8, next: Bytes8, data: Bytes8, new_: Bytes8, k: nat)
    requires c.bsize > 0 && |iv| == |next| == c.bsize && KeepsSize(c, key) && |data| == |new_|
    requires k > 0 && k * c.bsize + c.bsize <= |data|
    requires mode & CR_MODE_CBC != 0 ==>
               next == if mode & CR_MODE_ENCRYPT != 0 then new_[..c.bsize] else data[..c.bsize]
    ensures c.bsize <= |data| && (k - 1) * c.bsize + c.bsize <= |data| - c.bsize
    ensures Block(mode, c, key, next, data[c.bsize..], new_[c.bsize..], k - 1)
            ==> Block(mode, c, key, iv, data, new_, k)
  {
    hide KeepsSize, BlockAt, Before;
    var n := c.bsize;
    RestOf(data, n, k);
    RestOf(new_, n, k);
    if mode & CR_MODE_CBC != 0 {
      if mode & CR_MODE_ENCRYPT != 0 { BeforeRest(iv, next, new_, n, k); } else { BeforeRest(iv, next, data, n, k); }
    }
  }

  /** Every block of the result. */
  lemma {:induction false} CryptedBlock(mode: bv8, c: Codec, key: Bytes8, iv: Bytes8, data: Bytes8, k: nat)
    requires c.bsize > 0 && |iv| == c.bsize && Whole(|data|, c.bsize) && KeepsSize(c, key)
    requires k * c.bsize + c.bsize <= |data|
    ensures Block(mode, c, key, iv, data, Crypted(mode, c, key, iv, data), k)
    decreases k
  {
    hide CryptBlock, Crypted, KeepsSize, Whole, Block;
    OneBlock(mode, c, key, iv, data);
    var n, all := c.bsize, Crypted(mode, c, key, iv, data);
    var (x, next) := CryptBlock(mode, c, key, iv, data[..n]);
    var rest := Crypted(mode, c, key, next, data[n..]);
    if k == 0 {
      FirstBlock(mode, c, key, iv, data, x, rest);
    } else {
      assert all[..n] == x && all[n..] == rest;
      if mode & CR_MODE_CBC != 0 { NextChain(mode, c, key, iv, data[..n]); }
      LaterBlock(mode, c, key, iv, next, data, all, k);
      CryptedBlock(mode, c, key, next, data[n..], k - 1);
    }
  }

  ghost predicate EveryBlock(mode: bv8, c: Codec, key: Bytes8, iv: Bytes8, old_: Bytes8, new_: Bytes8)
    requires KeepsSize(c, key) && |iv| == c.bsize && |old_| == |new_|
  {
    forall k: nat {:trigger BlockAt(new_, c.bsize, k)} ::
      k * c.bsize + c.bsize <= |old_| ==> Block(mode, c, key, iv, old_, new_, k)
  }

  lemma CryptedBlocks(mode: bv8, c: Codec, key: Bytes8, iv: Bytes8, data: Bytes8)
    requires c.bsize > 0 && |iv| == c.bsize && Whole(|data|, c.bsize) && KeepsSize(c, key)
    ensures EveryBlock(mode, c, key, iv, data, Crypted(mode, c, key, iv, data))
  {
    hide Crypted, KeepsSize, Whole, Block;
    forall k: nat | k * c.bsize + c.bsize <= |data|
      ensures Block(mode, c, key, iv, data, Crypted(mode, c, key, iv, data), k)
    {
      CryptedBlock(mode, c, key, iv, data, k);
    }
  }

  /** The bytes the blocks of `length` bytes take up. */
  function Rounded(length: nat, bsize: nat): (r: nat)
    requires bsize > 0
    ensures length <= r < length + bsize && Whole(r, bsize)
  {
    if length == 0 then 0
    else if length <= bsize then bsize
    else bsize + Rounded(length - bsize, bsize)
  }

  lemma BufferIsWhole(bsize: nat)
    requires bsize == 8 || bsize == 16
    ensures Whole(CR_FILE_BUFFER_SIZE, bsize)
  {
    assert Whole(16, bsize);
  }

  /** The 16-bit counter of the outer loop stays below every longer length, so the loop would never end. */
  lemma CounterNeverPasses(length: nat, turns: nat)
    requires LONGEST < length < 0x1_0000
    ensures turns * CR_FILE_BUFFER_SIZE % 0x1_0000 < length
  {
    var j := turns * CR_FILE_BUFFER_SIZE % 0x1_0000;
    assert j % 32 == 0;
  }

  class Crypto {
    const file: array<bv8>        // what ctx->handle stands for
    const key: Bytes8
    const mode: bv8
    const codec: Codec            // the line mode & 0x3F of both tables

    constructor (file: array<bv8>, key: Bytes8, mode: bv8, codec: Codec)
      ensures this.file == file && this.key == key && this.mode == mode && this.codec == codec
    {
      this.file, this.key, this.mode, this.codec := file, key, mode, codec;
    }

    /** ctx->read: as many of n bytes as the file has. */
    method ReadFile(p: nat, buffer: array<bv8>, n: nat)
      requires n <= buffer.Length && p <= file.Length && buffer != file
      modifies buffer
      ensures forall q :: 0 <= q < n && p + q < file.Length ==> buffer[q] == file[p + q]
    {
      for q := 0 to n
        invariant forall i :: 0 <= i < q && p + i < file.Length ==> buffer[i] == file[p + i]
      {
        if p + q < file.Length {
          buffer[q] := file[p + q];
        }
      }
    }

    /** ctx->write */
    method WriteFile(p: nat, buffer: array<bv8>, n: nat)
      requires n <= buffer.Length && p + n <= file.Length && buffer != file
      modifies file
      ensures file[..] == old(file[..p]) + buffer[..n] + old(file[p + n..])
    {
      for q := 0 to n
        invariant file[..p] == old(file[..p]) && file[p..p + q] == buffer[..q] && file[p + n..] == old(file[p + n..])
      {
        file[p + q] := buffer[q];
      }
    }

    /** buffer[k + i] ^= chain[i] */
    method XorInto(buffer: array<bv8>, k: nat, chain: array<bv8>)
      requires k + codec.bsize <= buffer.Length && codec.bsize <= chain.Length && buffer != chain
      modifies buffer
      ensures buffer[k..k + codec.bsize] == Xor(old(buffer[k..k + codec.bsize]), chain[..codec.bsize])
      ensures buffer[..k] == old(buffer[..k]) && buffer[k + codec.bsize..] == old(buffer[k + codec.bsize..])
    {
      var n := codec.bsize;
      ghost var s, c := buffer[..], chain[..n];
      ghost var x := Xor(s[k..k + n], c);
      ghost var target := s[..k] + x + s[k + n..];
      for i := 0 to n
        invariant forall q :: 0 <= q < buffer.Length ==> buffer[q] == if q < k + i then target[q] else s[q]
      {
        assert target[k + i] == x[i] && s[k + i] == s[k..k + n][i] && c[i] == chain[i];
        buffer[k + i] := buffer[k + i] ^ chain[i];
      }
      assert buffer[..] == target;
      assert target[k..k + n] == x && target[..k] == s[..k] && target[k + n..] == s[k + n..];
    }

    method Store(a: array<bv8>, k: nat, b: Bytes8)
      requires k + |b| <= a.Length
      modifies a
      ensures a[k..k + |b|] == b && a[..k] == old(a[..k]) && a[k + |b|..] == old(a[k + |b|..])
    {
      for i := 0 to |b|
        invariant a[k..k + i] == b[..i] && a[..k] == old(a[..k]) && a[k + |b|..] == old(a[k + |b|..])
      {
        a[k + i] := b[i];
      }
    }

    /** The body of the inner loop: one block at k, chained through cbc. */
    method CryptOne(buffer: array<bv8>, k: nat, cbc: array<bv8>)
      requires codec.bsize > 0 && KeepsSize(codec, key)
      requires buffer != cbc && k + codec.bsize <= buffer.Length && cbc.Length == codec.bsize
      modifies buffer, cbc
      ensures (buffer[k..k + codec.bsize], cbc[..])
           == CryptBlock(mode, codec, key, old(cbc[..]), old(buffer[k..k + codec.bsize]))
      ensures buffer[..k] == old(buffer[..k]) && buffer[k + codec.bsize..] == old(buffer[k + codec.bsize..])
    {
      var n := codec.bsize;
      assert cbc[..n] == cbc[..];
      if mode & CR_MODE_ENCRYPT != 0 {
        if mode & CR_MODE_CBC != 0 {
          XorInto(buffer, k, cbc);
        }
        Store(buffer, k, codec.encode(key, buffer[k..k + n]));
        if mode & CR_MODE_CBC != 0 {
          Store(cbc, 0, buffer[k..k + n]);
        }
      } else {
        var cbc2 := buffer[k..k + n];
        Store(buffer, k, codec.decode(key, buffer[k..k + n]));
        if mode & CR_MODE_CBC != 0 {
          XorInto(buffer, k, cbc);
          Store(cbc, 0, cbc2);
        }
      }
      assert cbc[0..n] == cbc[..];
    }

    /** The inner loop: the blocks of the piece in the buffer, `left` bytes before the end of the data. */
    method CryptPiece(buffer: array<bv8>, left: nat, cbc: array<bv8>, ghost data: Bytes8) returns (k: nat)
      requires (codec.bsize == 8 || codec.bsize == 16) && KeepsSize(codec, key)
      requires buffer != cbc && buffer.Length == CR_FILE_BUFFER_SIZE && cbc.Length == codec.bsize
      requires 0 < left <= |data| < left + codec.bsize && Whole(|data|, codec.bsize)
      requires Loaded(buffer, 0, data)
      modifies buffer, cbc
      ensures k == if |data| < CR_FILE_BUFFER_SIZE then |data| else CR_FILE_BUFFER_SIZE
      ensures Whole(|data| - k, codec.bsize)
      ensures Crypted(mode, codec, key, old(cbc[..]), data)
           == buffer[..k] + Crypted(mode, codec, key, cbc[..], data[k..])
    {
      hide CryptBlock, Crypted, KeepsSize, Whole;
      k := 0;
      BufferIsWhole(codec.bsize);
      ghost var all := Crypted(mode, codec, key, cbc[..], data);
      assert data[0..] == data;
      while k < CR_FILE_BUFFER_SIZE && k < left
        invariant k <= |data| && k <= CR_FILE_BUFFER_SIZE
        invariant Whole(|data| - k, codec.bsize) && Whole(CR_FILE_BUFFER_SIZE - k, codec.bsize)
        invariant Loaded(buffer, k, data)
        invariant all == buffer[..k] + Crypted(mode, codec, key, cbc[..], data[k..])
        decreases CR_FILE_BUFFER_SIZE - k
      {
        ghost var done := buffer[..k];
        CryptNext(buffer, k, cbc, data);
        Rearranged(done, buffer[k..k + codec.bsize], Crypted(mode, codec, key, cbc[..], data[k + codec.bsize..]));
        assert buffer[..k + codec.bsize] == done + buffer[k..k + codec.bsize];
        k := k + codec.bsize;
      }
      SmallIsNothing(|data| - k, codec.bsize);
      SmallIsNothing(CR_FILE_BUFFER_SIZE - k, codec.bsize);
    }

    /** The buffer still holds the data from byte k on. */
    ghost predicate Loaded(buffer: array<bv8>, k: nat, data: Bytes8)
      reads buffer
    {
      forall q :: k <= q < |data| && q < buffer.Length ==> buffer[q] == data[q]
    }

    /** One turn of the inner loop. */
    method CryptNext(buffer: array<bv8>, k: nat, cbc: array<bv8>, ghost data: Bytes8)
      requires codec.bsize > 0 && KeepsSize(codec, key) && Loaded(buffer, k, data)
      requires buffer != cbc && buffer.Length == CR_FILE_BUFFER_SIZE && cbc.Length == codec.bsize
      requires k < |data| && k < CR_FILE_BUFFER_SIZE
      requires Whole(|data| - k, codec.bsize) && Whole(CR_FILE_BUFFER_SIZE - k, codec.bsize)
      modifies buffer, cbc
      ensures var n := k + codec.bsize;
              && n <= |data| && n <= CR_FILE_BUFFER_SIZE && buffer[..k] == old(buffer[..k]) && Loaded(buffer, n, data)
              && Whole(|data| - n, codec.bsize) && Whole(CR_FILE_BUFFER_SIZE - n, codec.bsize)
              && Crypted(mode, codec, key, old(cbc[..]), data[k..])
                 == buffer[k..n] + Crypted(mode, codec, key, cbc[..], data[n..])
    {
      hide CryptBlock, Crypted, KeepsSize, Whole;
      WholeStep(|data| - k, codec.bsize);
      WholeStep(CR_FILE_BUFFER_SIZE - k, codec.bsize);
      ghost var rest, n := data[k..], codec.bsize;
      OneBlock(mode, codec, key, cbc[..], rest);
      assert buffer[k..k + n] == rest[..n] && rest[n..] == data[k + n..];
      ghost var tail := buffer[k + n..];
      CryptOne(buffer, k, cbc);
      assert forall q :: k + n <= q < CR_FILE_BUFFER_SIZE ==> buffer[q] == tail[q - (k + n)];
    }

    /** The data that lies at file position p comes into the buffer, as far as there is room. */
    method ReadPiece(p: nat, buffer: array<bv8>, ghost before: Bytes8, ghost data: Bytes8, ghost after: Bytes8)
      requires buffer != file && buffer.Length == CR_FILE_BUFFER_SIZE
      requires file[..] == before + data + after && p == |before|
      modifies buffer
      ensures Loaded(buffer, 0, data)
    {
      ghost var b := file[..];
      ReadFile(p, buffer, CR_FILE_BUFFER_SIZE);
      assert forall q :: 0 <= q < |data| ==> data[q] == b[p + q];
    }

    /** One turn of the outer loop: the piece at file position p, where `data` and then `after` lie. */
    method CryptAt(p: nat, buffer: array<bv8>, left: nat, cbc: array<bv8>,
                   ghost before: Bytes8, ghost data: Bytes8, ghost after: Bytes8)
      returns (k: nat, ghost piece: Bytes8)
      requires (codec.bsize == 8 || codec.bsize == 16) && KeepsSize(codec, key)
      requires buffer != cbc && file != buffer && file != cbc
      requires buffer.Length == CR_FILE_BUFFER_SIZE && cbc.Length == codec.bsize
      requires 0 < left <= |data| < left + codec.bsize && Whole(|data|, codec.bsize)
      requires file[..] == before + data + after && p == |before|
      modifies file, buffer, cbc
      ensures k == |piece| == if |data| < CR_FILE_BUFFER_SIZE then |data| else CR_FILE_BUFFER_SIZE
      ensures Whole(|data| - k, codec.bsize)
      ensures file[..] == (before + piece) + data[k..] + after
      ensures Crypted(mode, codec, key, old(cbc[..]), data) == piece + Crypted(mode, codec, key, cbc[..], data[k..])
    {
      hide CryptBlock, Crypted, KeepsSize, Whole, Loaded;
      ghost var b := file[..];
      ReadPiece(p, buffer, before, data, after);
      k := CryptPiece(buffer, left, cbc, data);
      piece := buffer[..k];
      WriteFile(p, buffer, k);
      Rewritten(b, before, data, after, piece);
    }

    /** The outer loop, in pieces of the size of the buffer. */
    method CryptPieces(offset: nat, length: nat, buffer: array<bv8>, cbc: array<bv8>) returns (r: nat)
      requires (codec.bsize == 8 || codec.bsize == 16) && KeepsSize(codec, key)
      requires buffer != cbc && file != buffer && file != cbc
      requires buffer.Length == CR_FILE_BUFFER_SIZE && cbc.Length == codec.bsize
      requires 1 <= length <= LONGEST && offset + Rounded(length, codec.bsize) <= file.Length
      modifies file, buffer, cbc
      ensures r == Rounded(length, codec.bsize) && Whole(r, codec.bsize)
      ensures file[..] == old(file[..offset])
                        + Crypted(mode, codec, key, old(cbc[..]), old(file[offset..offset + r]))
                        + old(file[offset + r..])
    {
      hide CryptBlock, Crypted, KeepsSize, Rounded, Whole;
      ghost var total := Rounded(length, codec.bsize);
      ghost var before, data, after := file[..offset], file[offset..offset + total], file[offset + total..];
      ghost var all := Crypted(mode, codec, key, cbc[..], data);
      ghost var done: Bytes8, rest := [], data;
      assert file[..] == before + done + rest + after;
      var j, k := 0, 0;
      while j < length
        invariant |done| + |rest| == total && (j < length ==> |done| == j) && (j >= length ==> rest == [])
        invariant j > 0 ==> j - CR_FILE_BUFFER_SIZE + k == |done|
        invariant Whole(|rest|, codec.bsize)
        invariant file[..] == before + done + rest + after
        invariant all == done + Crypted(mode, codec, key, cbc[..], rest)
        decreases length - j
      {
        ghost var piece;
        k, piece := CryptAt(offset + j, buffer, length - j, cbc, before + done, rest, after);
        Rearranged(before, done, piece);
        Rearranged(done, piece, Crypted(mode, codec, key, cbc[..], rest[k..]));
        done, rest := done + piece, rest[k..];
        SmallIsNothing(|rest|, codec.bsize);
        j := (j + CR_FILE_BUFFER_SIZE) % 0x1_0000;
      }
      NothingLeft(mode, codec, key, cbc[..]);
      r := (j - CR_FILE_BUFFER_SIZE) + k;
    }

    /** cr_do_crypt for a file with room for whole blocks. */
    method Crypt(offset: nat, length: nat) returns (r: nat)
      requires ValidCodec(codec) && KeepsSize(codec, key)
      requires 1 <= length <= LONGEST
      requires codec.bsize > 0 ==> offset + Rounded(length, codec.bsize) <= file.Length
      modifies file
      ensures codec.bsize == 0 ==> r == 0 && file[..] == old(file[..])
      ensures codec.bsize > 0 ==>
                && r == Rounded(length, codec.bsize) && Whole(r, codec.bsize)
                && file[..] == old(file[..offset])
                             + Crypted(mode, codec, key, seq(codec.bsize, _ => 0), old(file[offset..offset + r]))
                             + old(file[offset + r..])
      ensures codec.bsize > 0 ==>
                EveryBlock(mode, codec, key, seq(codec.bsize, _ => 0),
                           old(file[offset..offset + r]), file[offset..offset + r])
    {
      hide CryptBlock, Crypted, KeepsSize, Rounded, Whole, EveryBlock;
      if codec.bsize == 0 {
        return 0;
      }
      var buffer := new bv8[CR_FILE_BUFFER_SIZE];
      var cbc := new bv8[codec.bsize](_ => 0);
      ghost var iv := cbc[..];
      assert iv == seq(codec.bsize, _ => 0);
      ghost var before := file[..];
      r := CryptPieces(offset, length, buffer, cbc);
      ghost var data := before[offset..offset + r];
      Framed(file[..], before[..offset], Crypted(mode, codec, key, iv, data), before[offset + r..]);
      CryptedBlocks(mode, codec, key, iv, data);
    }
  }

  lemma Framed(b: Bytes8, before: Bytes8, data: Bytes8, after: Bytes8)
    requires b == before + data + after
    ensures b[|before|..|before| + |data|] == data
  {
  }

  lemma WholeStep(len: nat, n: nat)
    requires n > 0 && Whole(len, n) && len > 0
    ensures len >= n && Whole(len - n, n)
  {
  }

  lemma SmallIsNothing(len: nat, n: nat)
    requires n > 0 && Whole(len, n)
    ensures len < n ==> len == 0
  {
  }

  lemma Rearranged(a: Bytes8, b: Bytes8, c: Bytes8)
    ensures (a + b) + c == a + (b + c)
  {
  }

  lemma NothingLeft(mode: bv8, c: Codec, key: Bytes8, chain: Bytes8)
    requires c.bsize > 0 && |chain| == c.bsize && KeepsSize(c, key)
    ensures Crypted(mode, c, key, chain, []) == []
  {
  }

  lemma Rewritten(b: Bytes8, before: Bytes8, data: Bytes8, after: Bytes8, piece: Bytes8)
    requires b == before + data + after && |piece| <= |data|
    ensures var p := |before|;
            b[..p] + piece + b[p + |piece|..] == (before + piece) + data[|piece|..] + after
  {
  }

  lemma RoundedIsWhole(length: nat, bsize: nat)
    requires bsize > 0
    ensures Whole(Rounded(length, bsize), bsize)
  {
  }

  /** Encrypting a file and decrypting it with the same key and chaining mode restores every byte of it. */
  method EncryptThenDecrypt(file: array<bv8>, key: Bytes8, mode: bv8, codec: Codec, offset: nat, length: nat)
    requires (codec.bsize == 8 || codec.bsize == 16) && Inverts(codec, key) && mode & CR_MODE_ENCRYPT != 0
    requires 1 <= length <= LONGEST && offset + Rounded(length, codec.bsize) <= file.Length
    modifies file
    ensures file[..] == old(file[..])
  {
    hide Crypted, Inverts, KeepsSize, Rounded, Whole;
    InvertsKeepsSize(codec, key);
    RoundedIsWhole(length, codec.bsize);
    ghost var r := Rounded(length, codec.bsize);
    ghost var before, data, after := file[..offset], file[offset..offset + r], file[offset + r..];
    ghost var iv := seq(codec.bsize, _ => 0);
    DecryptedIsOriginal(mode, codec, key, iv, data);
    assert before + data + after == file[..];
    var encryption := new Crypto(file, key, mode, codec);
    var n := encryption.Crypt(offset, length);
    ghost var x := Crypted(mode, codec, key, iv, data);
    assert file[..offset] == before && file[offset..offset + r] == x && file[offset + r..] == after by {
      assert file[..] == before + x + after;
    }
    var decryption := new Crypto(file, key, mode & !CR_MODE_ENCRYPT, codec);
    n := decryption.Crypt(offset, length);
  }
}
