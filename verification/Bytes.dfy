/** Byte strings: XOR, splitting into blocks, and the big-endian codec. */
module Bytes {

  type byte = bv8

  /** Number of values of a u64. */
  const U64: nat := 0x1_0000_0000_0000_0000

  function Min(a: nat, b: nat): nat {
    if a < b then a else b
  }

  // ---------------------------------------------------------------- XOR

  /** Rust's `zip`-and-XOR: as long as the shorter operand. */
  function Xor(a: seq<byte>, b: seq<byte>): seq<byte> {
    seq(Min(|a|, |b|), i requires 0 <= i < Min(|a|, |b|) => a[i] ^ b[i])
  }

  lemma XorCancels(a: seq<byte>, b: seq<byte>)
    requires |a| == |b|
    ensures |Xor(a, b)| == |a|
    ensures Xor(Xor(a, b), b) == a
    ensures Xor(Xor(b, a), b) == a
  {
    forall i | 0 <= i < |a|
      ensures Xor(Xor(a, b), b)[i] == a[i] && Xor(Xor(b, a), b)[i] == a[i]
    {
      assert (a[i] ^ b[i]) ^ b[i] == a[i];
      assert (b[i] ^ a[i]) ^ b[i] == a[i];
    }
  }

  /** XOR with a fixed string is injective. */
  lemma XorInjective(a: seq<byte>, b: seq<byte>, c: seq<byte>)
    requires |a| == |b| == |c|
    ensures Xor(a, b) == Xor(a, c) <==> b == c
  {
    XorCancels(b, a);
    XorCancels(c, a);
  }

  // ------------------------------------------------------------- blocks

  ghost predicate AreBlocks(blocks: seq<seq<byte>>, n: nat) {
    forall i :: 0 <= i < |blocks| ==> |blocks[i]| == n
  }

  function Flatten(blocks: seq<seq<byte>>): seq<byte> {
    if blocks == [] then [] else blocks[0] + Flatten(blocks[1..])
  }

  /** `chunks_exact(n)`: whole blocks only, a shorter rest is dropped. */
  function Chunks(s: seq<byte>, n: nat): (blocks: seq<seq<byte>>)
    requires 0 < n
    ensures AreBlocks(blocks, n)
  {
    if |s| < n then [] else [s[..n]] + Chunks(s[n..], n)
  }

  lemma {:induction false} FlattenAppend(a: seq<seq<byte>>, b: seq<seq<byte>>)
    ensures Flatten(a + b) == Flatten(a) + Flatten(b)
  {
    if a == [] {
      assert a + b == b;
    } else {
      FlattenAppend(a[1..], b);
      assert (a + b)[1..] == a[1..] + b && (a + b)[0] == a[0];
      var first, rest := a[0], Flatten(a[1..]);
      assert Flatten(a + b) == first + (rest + Flatten(b));
      assert Flatten(a) == first + rest;
    }
  }

  lemma {:induction false} FlattenLength(a: seq<seq<byte>>, n: nat)
    requires AreBlocks(a, n)
    ensures |Flatten(a)| == |a| * n
  {
    if a != [] {
      FlattenLength(a[1..], n);
    }
  }

  lemma {:induction false} ChunksFlatten(blocks: seq<seq<byte>>, n: nat)
    requires 0 < n && AreBlocks(blocks, n)
    ensures Chunks(Flatten(blocks), n) == blocks
  {
    if blocks != [] {
      var s := Flatten(blocks);
      ChunksFlatten(blocks[1..], n);
      assert s[..n] == blocks[0] && s[n..] == Flatten(blocks[1..]);
    }
  }

  lemma {:induction false} FlattenChunks(s: seq<byte>, n: nat)
    requires 0 < n && |s| % n == 0
    ensures Flatten(Chunks(s, n)) == s
  {
    if |s| < n {
    } else {
      DropOneBlock(|s|, n);
      FlattenChunks(s[n..], n);
      var blocks := Chunks(s, n);
      assert blocks[1..] == Chunks(s[n..], n);
      assert s == s[..n] + s[n..];
    }
  }

  lemma DropOneBlock(a: nat, n: nat)
    requires 0 < n <= a
    ensures (a - n) % n == a % n
  {
    var q, r := a / n, a % n;
    assert a - n == (q - 1) * n + r;
    DivModUnique(a - n, n, q - 1, r);
  }

  lemma PositiveMultiple(d: int, n: int)
    requires d > 0 && n > 0
    ensures d * n >= n
  {
    assert (d - 1) * n >= 0;
  }

  lemma MultipleIsFar(d: int, n: int)
    requires d != 0 && n > 0
    ensures d * n >= n || d * n <= 0 - n
  {
    if d > 0 {
      PositiveMultiple(d, n);
    } else {
      PositiveMultiple(-d, n);
      assert (-d) * n == -(d * n);
    }
  }

  lemma DivModUnique(a: int, n: int, q: int, r: int)
    requires 0 <= r < n && a == q * n + r
    ensures a / n == q && a % n == r
  {
    var d, m := a / n - q, a % n;
    assert a == (a / n) * n + m;
    assert d * n == r - m by { assert d * n == (a / n) * n - q * n; }
    if d != 0 {
      MultipleIsFar(d, n);
    }
  }

  // --------------------------------------------------- big-endian codec

  function Pow256(n: nat): (p: nat)
    ensures 0 < p
  {
    if n == 0 then 1 else 256 * Pow256(n - 1)
  }

  /** Value of base-256 digits, most significant first. */
  function FromDigits(ds: seq<nat>): nat {
    if ds == [] then 0 else FromDigits(ds[..|ds| - 1]) * 256 + ds[|ds| - 1]
  }

  /** The last n base-256 digits of v. */
  function ToDigits(v: nat, n: nat): (ds: seq<nat>)
    ensures |ds| == n && AreDigits(ds)
  {
    if n == 0 then [] else ToDigits(v / 256, n - 1) + [v % 256]
  }

  predicate AreDigits(ds: seq<nat>) {
    forall i :: 0 <= i < |ds| ==> ds[i] < 256
  }

  function DigitsOf(s: seq<byte>): (ds: seq<nat>)
    ensures |ds| == |s| && AreDigits(ds)
  {
    seq(|s|, i requires 0 <= i < |s| => s[i] as nat)
  }

  function BytesOf(ds: seq<nat>): (s: seq<byte>)
    requires AreDigits(ds)
    ensures |s| == |ds|
  {
    seq(|ds|, i requires 0 <= i < |ds| => ds[i] as byte)
  }

  /** `from_be_bytes` */
  function FromBE(s: seq<byte>): nat {
    FromDigits(DigitsOf(s))
  }

  /** `to_be_bytes`, for n bytes */
  function ToBE(v: nat, n: nat): (s: seq<byte>)
    ensures |s| == n
  {
    BytesOf(ToDigits(v, n))
  }

  lemma {:induction false} SomeByte(v: nat) returns (b: byte)
    requires v < 256
    ensures b as nat == v
  {
    if v == 0 {
      b := 0;
    } else {
      var before := SomeByte(v - 1);
      b := before + 1;
    }
  }

  lemma NatOfByte(b: byte)
    ensures (b as nat) as byte == b
  {}

  lemma ByteOfNat(v: nat)
    requires v < 256
    ensures (v as byte) as nat == v
  {
    var b := SomeByte(v);
    NatOfByte(b);
  }

  lemma DigitsOfBytes(ds: seq<nat>)
    requires AreDigits(ds)
    ensures DigitsOf(BytesOf(ds)) == ds
  {
    forall i | 0 <= i < |ds|
      ensures DigitsOf(BytesOf(ds))[i] == ds[i]
    {
      ByteOfNat(ds[i]);
    }
  }

  lemma BytesOfDigits(s: seq<byte>)
    ensures BytesOf(DigitsOf(s)) == s
  {
    forall i | 0 <= i < |s|
      ensures BytesOf(DigitsOf(s))[i] == s[i]
    {
      NatOfByte(s[i]);
    }
  }

  lemma {:induction false} FromDigitsBound(ds: seq<nat>)
    requires AreDigits(ds)
    ensures FromDigits(ds) < Pow256(|ds|)
  {
    if ds != [] {
      FromDigitsBound(ds[..|ds| - 1]);
    }
  }

  lemma {:induction false} ToDigitsFromDigits(ds: seq<nat>)
    requires AreDigits(ds)
    ensures ToDigits(FromDigits(ds), |ds|) == ds
  {
    if ds != [] {
      var front, last := ds[..|ds| - 1], ds[|ds| - 1];
      ToDigitsFromDigits(front);
      SplitByte(FromDigits(ds), FromDigits(front), last);
      assert ds == front + [last];
    }
  }

  lemma SplitByte(v: nat, hi: nat, lo: nat)
    requires v == hi * 256 + lo && lo < 256
    ensures v / 256 == hi && v % 256 == lo
  {}

  lemma {:induction false} FromDigitsToDigits(v: nat, n: nat)
    requires v < Pow256(n)
    ensures FromDigits(ToDigits(v, n)) == v
  {
    if n != 0 {
      FromDigitsToDigits(v / 256, n - 1);
      var ds := ToDigits(v, n);
      assert ds[..n - 1] == ToDigits(v / 256, n - 1);
    }
  }

  lemma FromBEBound(s: seq<byte>)
    ensures FromBE(s) < Pow256(|s|)
  {
    FromDigitsBound(DigitsOf(s));
  }

  lemma ToBEFromBE(s: seq<byte>)
    ensures ToBE(FromBE(s), |s|) == s
  {
    ToDigitsFromDigits(DigitsOf(s));
    BytesOfDigits(s);
  }

  /** Decoding an n-byte encoding gives the value back if it fits. */
  lemma FromBEToBE(v: nat, n: nat)
    requires v < Pow256(n)
    ensures FromBE(ToBE(v, n)) == v
  {
    FromDigitsToDigits(v, n);
    DigitsOfBytes(ToDigits(v, n));
  }
}
