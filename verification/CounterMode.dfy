/**
 * The counter-mode engine: CTR (NIST SP 800-38A, section 6.5) and the GCM keystream
 * (NIST SP 800-38D, sections 6.2, 6.5 and 7.1), over 16-byte blocks.
 */
module CounterMode {
  import opened Bytes
  import opened Ciphers
  import opened Results

  datatype CipherMode = Block | Ctr | Gcm

  const U32: nat := 0x1_0000_0000

  const U128: nat := U64 * U64

  // -------------------------------------------------------- specification

  /** Counter block i: the nonce plus i for CTR, nonce || (2 + i) for GCM, both wrapping. */
  function CounterBlock(mode: CipherMode, nonce: seq<byte>, i: nat): seq<byte> {
    if mode == Gcm then nonce + ToBE((2 + i) % U32, 4)
    else ToBE((FromBE(nonce) + i) % U128, 16)
  }

  /** The pre-counter block of a 12-byte nonce. */
  function J0(nonce: seq<byte>): seq<byte> {
    nonce + ToBE(1, 4)
  }

  /** The nonce has the length its consumer needs. */
  predicate NonceFits(mode: CipherMode, nonce: seq<byte>) {
    match mode
    case Ctr => |nonce| == 16
    case Gcm => |nonce| == 12
    case Block => false
  }

  function KeystreamByte(c: BlockCipher, key: seq<byte>, nonce: seq<byte>, mode: CipherMode, j: nat): byte {
    var block := c.encrypt(key, CounterBlock(mode, nonce, j / 16));
    if j % 16 < |block| then block[j % 16] else 0
  }

  /** Data XORed with a keystream, byte by byte. */
  function XorStream(keystream: nat -> byte, data: seq<byte>): seq<byte> {
    seq(|data|, j requires 0 <= j < |data| => data[j] ^ keystream(j))
  }

  function Keystream(c: BlockCipher, key: seq<byte>, nonce: seq<byte>, mode: CipherMode): nat -> byte {
    (j: nat) => KeystreamByte(c, key, nonce, mode, j)
  }

  /** Byte j is ct[j] XOR E(K, ctr(j / 16))[j % 16]. */
  function Crypt(c: BlockCipher, key: seq<byte>, nonce: seq<byte>, mode: CipherMode, data: seq<byte>): seq<byte> {
    XorStream(Keystream(c, key, nonce, mode), data)
  }

  /** The result of `stream_decrypt`: a rejected key only shows when there is data. */
  function StreamResult(c: BlockCipher, key: seq<byte>, data: seq<byte>, nonce: seq<byte>, mode: CipherMode)
    : Option<seq<byte>>
  {
    if mode == Block || (mode == Ctr && |nonce| != 16) then None
    else if data != [] && !c.accepts(key) then None
    else Some(Crypt(c, key, nonce, mode, data))
  }

  // -------------------------------------------------- in-place counters

  /** Big-endian increment of the whole block, modulo 2^128. */
  method IncrementCounter(counter: array<byte>)
    requires counter.Length == 16
    modifies counter
    ensures FromBE(counter[..]) == (FromBE(old(counter[..])) + 1) % U128
  {
    var value := FromBE(counter[..]);
    var bytes := ToBE((value + 1) % U128, 16);
    for i := 0 to 16
      invariant forall j :: 0 <= j < i ==> counter[j] == bytes[j]
    {
      counter[i] := bytes[i];
    }
    assert counter[..] == bytes;
    Pow256Of16();
    FromBEToBE((value + 1) % U128, 16);
  }

  /** Big-endian increment of the last four bytes, modulo 2^32; the first twelve never change. */
  method IncrementCounter32(counter: array<byte>)
    requires counter.Length == 16
    modifies counter
    ensures counter[..12] == old(counter[..12])
    ensures FromBE(counter[12..]) == (FromBE(old(counter[12..])) + 1) % U32
  {
    var value := FromBE(counter[12..]);
    var bytes := ToBE((value + 1) % U32, 4);
    for i := 0 to 4
      invariant counter[..12] == old(counter[..12])
      invariant forall j :: 0 <= j < i ==> counter[12 + j] == bytes[j]
    {
      counter[12 + i] := bytes[i];
    }
    assert counter[12..] == bytes;
    Pow256Of4();
    FromBEToBE((value + 1) % U32, 4);
  }

  lemma Pow256Of4()
    ensures Pow256(4) == U32
  {
    Pow256Doubles(1);
    Pow256Doubles(2);
  }

  lemma Pow256Of16()
    ensures Pow256(16) == U128
  {
    Pow256Of4();
    Pow256Doubles(4);
    Pow256Doubles(8);
  }

  lemma {:induction false} Pow256Adds(m: nat, n: nat)
    ensures Pow256(m + n) == Pow256(m) * Pow256(n)
  {
    if m != 0 {
      Pow256Adds(m - 1, n);
      var p, q := Pow256(m - 1), Pow256(n);
      assert (256 * p) * q == 256 * (p * q);
    }
  }

  lemma Pow256Doubles(n: nat)
    ensures Pow256(2 * n) == Pow256(n) * Pow256(n)
  {
    Pow256Adds(n, n);
  }

  method GcmJ0(nonce: seq<byte>) returns (counter: array<byte>)
    requires |nonce| == 12
    ensures fresh(counter) && counter.Length == 16 && counter[..] == J0(nonce)
  {
    counter := new byte[16](_ => 0);
    for i := 0 to 12
      invariant forall j :: 0 <= j < i ==> counter[j] == nonce[j]
      invariant forall j :: 12 <= j < 16 ==> counter[j] == 0
    {
      counter[i] := nonce[i];
    }
    counter[15] := 1;
    assert counter[..] == nonce + [0, 0, 0, 1];
    OneAsBytes();
  }

  lemma OneAsBytes()
    ensures ToBE(1, 4) == [0, 0, 0, 1]
  {
    OneAsDigits(4);
    DigitsOfBytes([0, 0, 0, 1]);
    var one: seq<byte> := [0, 0, 0, 1];
    assert DigitsOf(one) == [0, 0, 0, 1];
    BytesOfDigits(one);
  }

  lemma OneAsDigits(n: nat)
    requires n == 4
    ensures ToDigits(1, n) == [0, 0, 0, 1]
  {
    assert ToDigits(0, n - 3) == [0];
    assert ToDigits(0, n - 2) == [0, 0];
    assert ToDigits(0, n - 1) == [0, 0, 0];
  }

  // --------------------------------------------------- counter arithmetic

  /** Adding one to an n-byte counter that holds v gives the one that holds v + 1. */
  lemma NextCount(v: nat, n: nat, next: seq<byte>)
    requires |next| == n
    requires FromBE(next) == (FromBE(ToBE(v % Pow256(n), n)) + 1) % Pow256(n)
    ensures next == ToBE((v + 1) % Pow256(n), n)
  {
    FromBEToBE(v % Pow256(n), n);
    AddModTwice(v, 1, Pow256(n));
    ToBEFromBE(next);
  }

  lemma FirstCtrBlock(nonce: seq<byte>)
    requires |nonce| == 16
    ensures CounterBlock(Ctr, nonce, 0) == nonce
  {
    Pow256Of16();
    FromBEBound(nonce);
    ToBEFromBE(nonce);
  }

  lemma NextCtrBlock(nonce: seq<byte>, i: nat, next: seq<byte>)
    requires |nonce| == |next| == 16
    requires FromBE(next) == (FromBE(CounterBlock(Ctr, nonce, i)) + 1) % U128
    ensures next == CounterBlock(Ctr, nonce, i + 1)
  {
    var v := FromBE(nonce) + i;
    Pow256Of16();
    assert CounterBlock(Ctr, nonce, i) == ToBE(v % Pow256(|next|), |next|);
    NextCount(v, |next|, next);
  }

  lemma AddModTwice(a: nat, b: nat, m: nat)
    requires 0 < m
    ensures (a % m + b) % m == (a + b) % m
  {
    var q, r := (a % m + b) / m, (a % m + b) % m;
    assert a + b == (a / m + q) * m + r by {
      assert a == (a / m) * m + a % m;
      assert (a / m + q) * m == (a / m) * m + q * m;
    }
    DivModUnique(a + b, m, a / m + q, r);
  }

  lemma NextGcmBlock(nonce: seq<byte>, v: nat, next: seq<byte>)
    requires |nonce| == 12 && |next| == 16 && next[..12] == nonce
    requires FromBE(next[12..]) == (FromBE(ToBE(v % U32, 4)) + 1) % U32
    ensures next == nonce + ToBE((v + 1) % U32, 4)
  {
    Pow256Of4();
    NextCount(v, |next[12..]|, next[12..]);
    assert next == next[..12] + next[12..];
  }

  // ------------------------------------------------------- the decryptor

  /** The counter holds block i. */
  ghost predicate CounterAt(counter: array<byte>, mode: CipherMode, nonce: seq<byte>, i: nat)
    reads counter
  {
    counter.Length == 16 && counter[..] == CounterBlock(mode, nonce, i)
  }

  method StartGcm(nonce: seq<byte>) returns (counter: array<byte>)
    requires |nonce| == 12
    ensures fresh(counter) && CounterAt(counter, Gcm, nonce, 0)
  {
    counter := GcmJ0(nonce);
    assert counter[..12] == nonce && counter[12..] == ToBE(1, 4);
    IncrementCounter32(counter);
    assert counter[..][12..] == counter[12..];
    NextGcmBlock(nonce, 1, counter[..]);
  }

  /** The counter before the first chunk; for GCM it is inc32(J0). */
  method Start(nonce: seq<byte>, mode: CipherMode) returns (counter: array<byte>)
    requires NonceFits(mode, nonce)
    ensures fresh(counter) && CounterAt(counter, mode, nonce, 0)
  {
    if mode == Ctr {
      counter := new byte[16](i requires 0 <= i < 16 => nonce[i]);
      assert counter[..] == nonce;
      FirstCtrBlock(nonce);
    } else {
      counter := StartGcm(nonce);
    }
  }

  method Step(counter: array<byte>, mode: CipherMode, ghost nonce: seq<byte>, ghost i: nat)
    requires NonceFits(mode, nonce) && CounterAt(counter, mode, nonce, i)
    modifies counter
    ensures CounterAt(counter, mode, nonce, i + 1)
  {
    if mode == Ctr {
      IncrementCounter(counter);
      NextCtrBlock(nonce, i, counter[..]);
    } else {
      assert counter[..12] == nonce && counter[12..] == ToBE((2 + i) % U32, 4);
      IncrementCounter32(counter);
      assert counter[..][12..] == counter[12..];
      NextGcmBlock(nonce, 2 + i, counter[..]);
    }
  }

  /** XORing chunk i with its keystream block extends the decrypted prefix by that chunk. */
  lemma ChunkOfCrypt(c: BlockCipher, key: seq<byte>, nonce: seq<byte>, mode: CipherMode,
                     data: seq<byte>, i: nat, k: nat, keystream: seq<byte>)
    requires |keystream| == 16 && keystream == c.encrypt(key, CounterBlock(mode, nonce, i))
    requires k <= 16 && 16 * i + k <= |data|
    ensures Crypt(c, key, nonce, mode, data)[..16 * i] + Xor(data[16 * i..16 * i + k], keystream)
         == Crypt(c, key, nonce, mode, data)[..16 * i + k]
  {
    var full := Crypt(c, key, nonce, mode, data);
    forall j | 0 <= j < k
      ensures full[16 * i + j] == data[16 * i + j] ^ keystream[j]
    {
      DivModUnique(16 * i + j, 16, i, j);
    }
    assert full[16 * i..16 * i + k] == Xor(data[16 * i..16 * i + k], keystream);
  }

  lemma CounterBlockLength(mode: CipherMode, nonce: seq<byte>, i: nat)
    requires NonceFits(mode, nonce)
    ensures |CounterBlock(mode, nonce, i)| == 16
  {}

  /** Processes chunk i: one block of keystream, then one step of the counter. */
  method NextChunk(c: BlockCipher, key: seq<byte>, counter: array<byte>, mode: CipherMode, ghost nonce: seq<byte>,
                   data: seq<byte>, plaintext: seq<byte>, ghost i: nat)
    returns (longer: seq<byte>)
    requires c.WellFormed() && c.Usable(key) && c.blockLen == 16
    requires NonceFits(mode, nonce) && CounterAt(counter, mode, nonce, i)
    requires |plaintext| == 16 * i < |data| && plaintext == Crypt(c, key, nonce, mode, data)[..16 * i]
    modifies counter
    ensures CounterAt(counter, mode, nonce, i + 1)
    ensures |longer| == Min(16 * i + 16, |data|)
    ensures longer == Crypt(c, key, nonce, mode, data)[..|longer|]
  {
    var from := |plaintext|;
    var k := Min(16, |data| - from);
    var chunk := data[from..from + k];
    var keystream := c.encrypt(key, counter[..]);
    longer := plaintext + Xor(chunk, keystream);
    ChunkOfCrypt(c, key, nonce, mode, data, i, k, keystream);
    Step(counter, mode, nonce, i);
  }

  /** `stream_decrypt`: chunks of sixteen bytes, the last one possibly shorter. */
  method StreamDecrypt(c: BlockCipher, key: seq<byte>, ciphertext: seq<byte>, nonce: seq<byte>, mode: CipherMode)
    returns (r: Option<seq<byte>>)
    requires c.WellFormed() && c.blockLen == 16 && |key| == c.keyLen
    requires mode == Gcm ==> |nonce| == 12
    ensures r == StreamResult(c, key, ciphertext, nonce, mode)
  {
    if mode == Block || (mode == Ctr && |nonce| != 16) {
      return None;
    }
    var counter := Start(nonce, mode);
    var plaintext: seq<byte> := [];
    ghost var full, i := Crypt(c, key, nonce, mode, ciphertext), 0;
    while |plaintext| < |ciphertext|
      invariant |plaintext| == Min(16 * i, |ciphertext|) && plaintext == full[..|plaintext|]
      invariant i == 0 || c.accepts(key)
      invariant CounterAt(counter, mode, nonce, i) && fresh(counter)
      decreases |ciphertext| - |plaintext|
    {
      if !c.accepts(key) {
        return None;
      }
      plaintext := NextChunk(c, key, counter, mode, nonce, ciphertext, plaintext, i);
      i := i + 1;
    }
    assert plaintext == full;
    return Some(plaintext);
  }

  // -------------------------------------------------------------- theorems

  /** Applying a keystream twice is the identity, and it commutes with taking a prefix. */
  lemma XorStreamInvolution(keystream: nat -> byte, data: seq<byte>, n: nat)
    requires n <= |data|
    ensures XorStream(keystream, XorStream(keystream, data)) == data
    ensures XorStream(keystream, data[..n]) == XorStream(keystream, data)[..n]
  {
    forall j | 0 <= j < |data|
      ensures XorStream(keystream, XorStream(keystream, data))[j] == data[j]
    {
      var x := keystream(j);
      assert (data[j] ^ x) ^ x == data[j];
    }
  }

  lemma ToBEInjective(a: nat, b: nat, n: nat)
    requires a < Pow256(n) && b < Pow256(n)
    ensures ToBE(a, n) == ToBE(b, n) <==> a == b
  {
    FromBEToBE(a, n);
    FromBEToBE(b, n);
  }

  lemma SmallDifferenceMod(a: nat, b: nat, m: nat)
    requires a <= b < a + m
    ensures a % m == b % m <==> a == b
  {
    if a % m == b % m {
      assert b - a == (b / m - a / m) * m by {
        assert a == (a / m) * m + a % m;
        assert b == (b / m) * m + b % m;
        assert (b / m - a / m) * m == (b / m) * m - (a / m) * m;
      }
      if b / m - a / m != 0 {
        MultipleIsFar(b / m - a / m, m);
      }
    }
  }

  /**
   * GCM: two counter blocks coincide exactly when their indices agree mod 2^32, and block i is
   * J0 exactly when i + 1 does with 0.
   */
  lemma GcmCounterBlocks(nonce: seq<byte>, i: nat, j: nat)
    requires |nonce| == 12
    ensures CounterBlock(Gcm, nonce, i)[..12] == nonce
    ensures CounterBlock(Gcm, nonce, i) == CounterBlock(Gcm, nonce, j) <==> (2 + i) % U32 == (2 + j) % U32
    ensures CounterBlock(Gcm, nonce, i) == J0(nonce) <==> (2 + i) % U32 == 1
  {
    Pow256Of4();
    var a, b := CounterBlock(Gcm, nonce, i), CounterBlock(Gcm, nonce, j);
    assert a[12..] == ToBE((2 + i) % U32, 4) && b[12..] == ToBE((2 + j) % U32, 4);
    assert J0(nonce)[12..] == ToBE(1, 4);
    ToBEInjective((2 + i) % U32, (2 + j) % U32, 4);
    ToBEInjective((2 + i) % U32, 1, 4);
  }

  lemma GcmIndices(i: nat, j: nat)
    requires i < j < U32 - 1
    ensures (2 + i) % U32 != (2 + j) % U32 && (2 + i) % U32 != 1 && (2 + j) % U32 != 1
  {}

  /** For fewer than 2^32 blocks the GCM counter blocks are pairwise distinct and none is J0. */
  lemma GcmCounterNeverRepeats(nonce: seq<byte>, i: nat, j: nat)
    requires |nonce| == 12 && i < j < U32 - 1
    ensures CounterBlock(Gcm, nonce, i) != CounterBlock(Gcm, nonce, j)
    ensures CounterBlock(Gcm, nonce, i) != J0(nonce) && CounterBlock(Gcm, nonce, j) != J0(nonce)
  {
    GcmIndices(i, j);
    GcmCounterBlocks(nonce, i, j);
    GcmCounterBlocks(nonce, j, i);
  }

  /** So the keystream blocks are pairwise distinct too, and none is the block that masks the tag. */
  lemma GcmKeystreamNeverRepeats(c: BlockCipher, key: seq<byte>, nonce: seq<byte>, i: nat, j: nat)
    requires c.WellFormed() && c.Usable(key) && c.blockLen == 16
    requires |nonce| == 12 && i < j < U32 - 1
    ensures c.encrypt(key, CounterBlock(Gcm, nonce, i)) != c.encrypt(key, CounterBlock(Gcm, nonce, j))
    ensures c.encrypt(key, CounterBlock(Gcm, nonce, i)) != c.encrypt(key, J0(nonce))
    ensures c.encrypt(key, CounterBlock(Gcm, nonce, j)) != c.encrypt(key, J0(nonce))
  {
    GcmCounterNeverRepeats(nonce, i, j);
    CounterBlockLength(Gcm, nonce, i);
    CounterBlockLength(Gcm, nonce, j);
    c.EncryptInjective(key, CounterBlock(Gcm, nonce, i), CounterBlock(Gcm, nonce, j));
    c.EncryptInjective(key, CounterBlock(Gcm, nonce, i), J0(nonce));
    c.EncryptInjective(key, CounterBlock(Gcm, nonce, j), J0(nonce));
  }

  /** CTR: counter blocks at most 2^128 - 1 apart are distinct, through every carry and the wrap-around. */
  lemma CtrCounterBlocksDistinct(nonce: seq<byte>, i: nat, j: nat)
    requires |nonce| == 16 && i < j < i + U128
    ensures CounterBlock(Ctr, nonce, i) != CounterBlock(Ctr, nonce, j)
  {
    var m, v := U128, FromBE(nonce);
    Pow256Of16();
    SmallDifferenceMod(v + i, v + j, m);
    ToBEInjective((v + i) % m, (v + j) % m, 16);
  }
}
