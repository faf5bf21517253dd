/**
 * Block ciphers as keyed permutations, and the ECB and CBC modes as
 * NIST SP 800-38A defines them (sections 6.1 and 6.2).
 */
module Ciphers {
  import opened Bytes

  /**
   * A keyed block cipher. `accepts` tells whether a key of the right length is
   * taken; the two directions are only meaningful on accepted keys and whole blocks.
   */
  datatype BlockCipher = BlockCipher(
    keyLen: nat,
    blockLen: nat,
    accepts: seq<byte> -> bool,
    encrypt: (seq<byte>, seq<byte>) -> seq<byte>,
    decrypt: (seq<byte>, seq<byte>) -> seq<byte>)
  {
    predicate Usable(key: seq<byte>) {
      |key| == keyLen && accepts(key)
    }

    /** Both directions keep the block length and undo each other. */
    ghost predicate WellFormed() {
      && 0 < keyLen
      && 0 < blockLen
      && (forall k, b :: Usable(k) && |b| == blockLen ==>
            |encrypt(k, b)| == blockLen && decrypt(k, encrypt(k, b)) == b)
      && (forall k, b :: Usable(k) && |b| == blockLen ==>
            |decrypt(k, b)| == blockLen && encrypt(k, decrypt(k, b)) == b)
    }

    lemma EncryptInjective(k: seq<byte>, a: seq<byte>, b: seq<byte>)
      requires WellFormed() && Usable(k) && |a| == |b| == blockLen
      ensures encrypt(k, a) == encrypt(k, b) <==> a == b
    {
      assert decrypt(k, encrypt(k, a)) == a && decrypt(k, encrypt(k, b)) == b;
    }
  }

  /** The one-time pad on 16-byte blocks: a concrete keyed permutation. */
  function XorCipher(): BlockCipher {
    BlockCipher(16, 16, k => true, (k, b) => Xor(b, k), (k, b) => Xor(b, k))
  }

  lemma XorCipherIsWellFormed()
    ensures XorCipher().WellFormed()
  {
    var c := XorCipher();
    forall k, b | c.Usable(k) && |b| == c.blockLen
      ensures |c.encrypt(k, b)| == 16 && c.decrypt(k, c.encrypt(k, b)) == b
      ensures |c.decrypt(k, b)| == 16 && c.encrypt(k, c.decrypt(k, b)) == b
    {
      XorCancels(b, k);
    }
  }

  // ----------------------------------------------------------------- ECB

  function EcbEncrypt(c: BlockCipher, key: seq<byte>, blocks: seq<seq<byte>>): seq<seq<byte>> {
    seq(|blocks|, i requires 0 <= i < |blocks| => c.encrypt(key, blocks[i]))
  }

  function EcbDecrypt(c: BlockCipher, key: seq<byte>, blocks: seq<seq<byte>>): seq<seq<byte>> {
    seq(|blocks|, i requires 0 <= i < |blocks| => c.decrypt(key, blocks[i]))
  }

  lemma EcbReencrypts(c: BlockCipher, key: seq<byte>, blocks: seq<seq<byte>>)
    requires c.WellFormed() && c.Usable(key) && AreBlocks(blocks, c.blockLen)
    ensures AreBlocks(EcbDecrypt(c, key, blocks), c.blockLen)
    ensures EcbEncrypt(c, key, EcbDecrypt(c, key, blocks)) == blocks
  {
    forall i | 0 <= i < |blocks|
      ensures |c.decrypt(key, blocks[i])| == c.blockLen
      ensures c.encrypt(key, c.decrypt(key, blocks[i])) == blocks[i]
    {}
  }

  lemma EcbRestores(c: BlockCipher, key: seq<byte>, ps: seq<seq<byte>>)
    requires c.WellFormed() && c.Usable(key) && AreBlocks(ps, c.blockLen)
    ensures EcbDecrypt(c, key, EcbEncrypt(c, key, ps)) == ps
  {
    forall i | 0 <= i < |ps|
      ensures c.decrypt(key, c.encrypt(key, ps[i])) == ps[i]
    {}
  }

  // ----------------------------------------------------------------- CBC

  /** C[0] = E(P[0] ^ IV), C[i] = E(P[i] ^ C[i-1]). */
  function CbcEncrypt(c: BlockCipher, key: seq<byte>, iv: seq<byte>, ps: seq<seq<byte>>): seq<seq<byte>>
    decreases ps
  {
    if ps == [] then []
    else
      var c0 := c.encrypt(key, Xor(ps[0], iv));
      [c0] + CbcEncrypt(c, key, c0, ps[1..])
  }

  /** P[0] = D(C[0]) ^ IV, P[i] = D(C[i]) ^ C[i-1]. */
  function CbcDecrypt(c: BlockCipher, key: seq<byte>, iv: seq<byte>, cs: seq<seq<byte>>): seq<seq<byte>>
    decreases cs
  {
    if cs == [] then []
    else [Xor(c.decrypt(key, cs[0]), iv)] + CbcDecrypt(c, key, cs[0], cs[1..])
  }

  lemma {:induction false} CbcDecryptBlocks(c: BlockCipher, key: seq<byte>, iv: seq<byte>, cs: seq<seq<byte>>)
    requires c.WellFormed() && c.Usable(key) && AreBlocks(cs, c.blockLen) && |iv| == c.blockLen
    ensures |CbcDecrypt(c, key, iv, cs)| == |cs|
    ensures AreBlocks(CbcDecrypt(c, key, iv, cs), c.blockLen)
    ensures CbcEncrypt(c, key, iv, CbcDecrypt(c, key, iv, cs)) == cs
    decreases cs
  {
    if cs != [] {
      CbcDecryptBlocks(c, key, cs[0], cs[1..]);
      XorCancels(c.decrypt(key, cs[0]), iv);
      var ps := CbcDecrypt(c, key, iv, cs);
      assert ps[1..] == CbcDecrypt(c, key, cs[0], cs[1..]);
      assert cs == [cs[0]] + cs[1..];
    }
  }

  lemma {:induction false} CbcEncryptBlocks(c: BlockCipher, key: seq<byte>, iv: seq<byte>, ps: seq<seq<byte>>)
    requires c.WellFormed() && c.Usable(key) && AreBlocks(ps, c.blockLen) && |iv| == c.blockLen
    ensures |CbcEncrypt(c, key, iv, ps)| == |ps|
    ensures AreBlocks(CbcEncrypt(c, key, iv, ps), c.blockLen)
    ensures CbcDecrypt(c, key, iv, CbcEncrypt(c, key, iv, ps)) == ps
    decreases ps
  {
    if ps != [] {
      XorCancels(ps[0], iv);
      var c0 := c.encrypt(key, Xor(ps[0], iv));
      CbcEncryptBlocks(c, key, c0, ps[1..]);
      var cs := CbcEncrypt(c, key, iv, ps);
      assert cs[1..] == CbcEncrypt(c, key, c0, ps[1..]);
      assert ps == [ps[0]] + ps[1..];
    }
  }

  /** Plaintext blocks 1..n of a CBC ciphertext; needs no IV. */
  function CbcTail(c: BlockCipher, key: seq<byte>, cs: seq<seq<byte>>): seq<seq<byte>>
    requires cs != []
  {
    seq(|cs| - 1, i requires 0 <= i < |cs| - 1 => Xor(c.decrypt(key, cs[i + 1]), cs[i]))
  }

  lemma {:induction false} CbcDecryptPointwise(c: BlockCipher, key: seq<byte>, iv: seq<byte>, cs: seq<seq<byte>>)
    ensures |CbcDecrypt(c, key, iv, cs)| == |cs|
    ensures forall i :: 0 <= i < |cs| ==>
      CbcDecrypt(c, key, iv, cs)[i] == Xor(c.decrypt(key, cs[i]), if i == 0 then iv else cs[i - 1])
    decreases cs
  {
    if cs != [] {
      CbcDecryptPointwise(c, key, cs[0], cs[1..]);
    }
  }

  /** The IV-free tail is what real CBC decryption gives, whatever the IV. */
  lemma CbcTailIsIvFree(c: BlockCipher, key: seq<byte>, iv: seq<byte>, cs: seq<seq<byte>>)
    requires cs != []
    ensures CbcDecrypt(c, key, iv, cs) == [Xor(c.decrypt(key, cs[0]), iv)] + CbcTail(c, key, cs)
  {
    CbcDecryptPointwise(c, key, iv, cs);
  }

  /** Encrypting the tail under IV = C[0] gives back every block but the first. */
  lemma CbcTailReencrypts(c: BlockCipher, key: seq<byte>, cs: seq<seq<byte>>)
    requires c.WellFormed() && c.Usable(key) && cs != [] && AreBlocks(cs, c.blockLen)
    ensures AreBlocks(CbcTail(c, key, cs), c.blockLen)
    ensures CbcEncrypt(c, key, cs[0], CbcTail(c, key, cs)) == cs[1..]
  {
    CbcDecryptPointwise(c, key, cs[0], cs[1..]);
    assert CbcTail(c, key, cs) == CbcDecrypt(c, key, cs[0], cs[1..]);
    CbcDecryptBlocks(c, key, cs[0], cs[1..]);
  }
}
