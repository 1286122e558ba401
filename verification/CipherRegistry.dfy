/** The ciphers registered in cr_crypt.c, and what chaining promises for each of them. */
module CipherRegistry {
  import opened BlockCiphers
  import opened Cbc
  import Aes
  import Des

  function DesEncode(key: Bytes8, b: Bytes8): Bytes8 {
    if |key| >= 8 && |b| == 8 then Des.Encrypted(key[..8], b) else b
  }

  function DesDecode(key: Bytes8, b: Bytes8): Bytes8 {
    if |key| >= 8 && |b| == 8 then Des.Decrypted(key[..8], b) else b
  }

  function Tdes2Encode(key: Bytes8, b: Bytes8): Bytes8 {
    if |key| >= 16 && |b| == 8 then Des.TripleEncrypted(key[..8], key[8..16], key[..8], b) else b
  }

  function Tdes2Decode(key: Bytes8, b: Bytes8): Bytes8 {
    if |key| >= 16 && |b| == 8 then Des.TripleDecrypted(key[..8], key[8..16], key[..8], b) else b
  }

  function Tdes3Encode(key: Bytes8, b: Bytes8): Bytes8 {
    if |key| >= 24 && |b| == 8 then Des.TripleEncrypted(key[..8], key[8..16], key[16..24], b) else b
  }

  function Tdes3Decode(key: Bytes8, b: Bytes8): Bytes8 {
    if |key| >= 24 && |b| == 8 then Des.TripleDecrypted(key[..8], key[8..16], key[16..24], b) else b
  }

  function AesEncode(key: Bytes8, b: Bytes8): Bytes8 {
    if |key| >= 16 && |b| == 16 then Aes.Encrypted(key[..16], b) else b
  }

  function AesDecode(key: Bytes8, b: Bytes8): Bytes8 {
    if |key| >= 16 && |b| == 16 then Aes.Decrypted(key[..16], b) else b
  }

  /** Line i of g_fnRegisteredEncoder and g_fnRegisteredDecoder; line 4 ends both tables. */
  function Registered(i: nat): (c: Codec)
    requires i <= 4
    ensures ValidCodec(c)
  {
    if i == 0 then Codec(8, DesEncode, DesDecode)
    else if i == 1 then Codec(8, Tdes2Encode, Tdes2Decode)
    else if i == 2 then Codec(8, Tdes3Encode, Tdes3Decode)
    else if i == 3 then Codec(16, AesEncode, AesDecode)
    else Codec(0, (k, b) => b, (k, b) => b)
  }

  /** Bytes of key a registered cipher reads. */
  function KeySize(i: nat): nat {
    if i == 0 then 8 else if i == 2 then 24 else 16
  }

  /** Every registered cipher is inverted by the decoder on the same line, for every key. */
  lemma RegisteredInverts(i: nat, key: Bytes8)
    requires i < 4 && |key| >= KeySize(i)
    ensures Inverts(Registered(i), key)
  {
    hide Des.Encrypted, Des.Decrypted, Des.TripleEncrypted, Des.TripleDecrypted, Aes.Encrypted, Aes.Decrypted;
    var c := Registered(i);
    forall b: Bytes8 | |b| == c.bsize
      ensures |c.encode(key, b)| == c.bsize && |c.decode(key, b)| == c.bsize && c.decode(key, c.encode(key, b)) == b
    {
      BlockInverts(i, key, b);
    }
  }

  lemma BlockInverts(i: nat, key: Bytes8, b: Bytes8)
    requires i < 4 && |key| >= KeySize(i) && |b| == Registered(i).bsize
    ensures var c := Registered(i);
            |c.encode(key, b)| == c.bsize && |c.decode(key, b)| == c.bsize && c.decode(key, c.encode(key, b)) == b
  {
    hide Des.Encrypted, Des.Decrypted, Des.TripleEncrypted, Des.TripleDecrypted, Aes.Encrypted, Aes.Decrypted;
    if i == 0 {
      Des.DesInverts(key[..8], b);
    } else if i == 1 {
      Des.TripleDesInverts(key[..8], key[8..16], key[..8], b);
    } else if i == 2 {
      Des.TripleDesInverts(key[..8], key[8..16], key[16..24], b);
    } else {
      Aes.DecryptedIsOriginal(key[..16], b);
    }
  }

  /**
    Which cipher is on which line, in terms of the first: on lines 1 and 2 equal keys make triple DES the
    single DES of line 0, and on line 2 an equal first and third key makes it the cipher of line 1.
    */
  lemma LinesAre(k: Bytes8, j: Bytes8, b: Bytes8)
    requires |k| == |j| == 8 && |b| == 8
    ensures Registered(0).encode(k, b) == Des.Encrypted(k, b)
    ensures Registered(1).encode(k + k, b) == Registered(0).encode(k, b)
    ensures Registered(2).encode(k + j + k, b) == Registered(1).encode(k + j, b)
    ensures Registered(2).encode(k + k + j, b) == Registered(0).encode(j, b)
  {
    hide Des.Encrypted, Des.Decrypted, Des.TripleEncrypted;
    assert k[..8] == k && j[..8] == j && (k + k)[..8] == k && (k + k)[8..16] == k;
    assert (k + j)[..8] == k && (k + j)[8..16] == j;
    assert (k + j + k)[..8] == k && (k + j + k)[8..16] == j && (k + j + k)[16..24] == k;
    assert (k + k + j)[..8] == k && (k + k + j)[8..16] == k && (k + k + j)[16..24] == j;
    Des.TripleCollapses(k, k, b);
    Des.TripleCollapses(k, j, b);
  }

  /** For every registered cipher, chained or not, decrypting what was encrypted restores the file. */
  method RoundTrip(file: array<bv8>, key: Bytes8, i: nat, mode: bv8, offset: nat, length: nat)
    requires i < 4 && |key| >= KeySize(i) && mode & CR_MODE_ENCRYPT != 0
    requires 1 <= length <= LONGEST && offset + Rounded(length, Registered(i).bsize) <= file.Length
    modifies file
    ensures file[..] == old(file[..])
  {
    RegisteredInverts(i, key);
    EncryptThenDecrypt(file, key, mode, Registered(i), offset, length);
  }
}
