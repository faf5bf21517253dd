/** The base-128 length prefix read by the protobuf oracle. */
module Varint {
  import opened Bytes
  import opened Results

  // ------------------------------------------- u64 shift and or, on naturals

  function Pow2(n: nat): (p: nat)
    ensures 0 < p
  {
    if n == 0 then 1 else 2 * Pow2(n - 1)
  }

  /** `x << s` on a u64: high bits drop out. */
  function Shl64(x: nat, s: nat): nat {
    x * Pow2(s) % U64
  }

  /** Bitwise or, bit by bit from the low end. */
  function BitOr(a: nat, b: nat): nat {
    if a == 0 && b == 0 then 0
    else 2 * BitOr(a / 2, b / 2) + if a % 2 == 1 || b % 2 == 1 then 1 else 0
  }

  lemma {:induction false} BitOrZero(a: nat)
    ensures BitOr(0, a) == a
  {
    if a != 0 {
      BitOrZero(a / 2);
    }
  }

  lemma BitOrEven(a: nat, b: nat)
    ensures BitOr(a, 2 * b) == 2 * BitOr(a / 2, b) + a % 2
  {
    assert (2 * b) / 2 == b && (2 * b) % 2 == 0;
  }

  /** Or with a value whose low s bits are clear is addition. */
  lemma {:induction false} BitOrIsAddition(a: nat, c: nat, s: nat)
    requires a < Pow2(s)
    ensures BitOr(a, c * Pow2(s)) == a + c * Pow2(s)
  {
    if s == 0 {
      BitOrZero(c);
    } else {
      var half := c * Pow2(s - 1);
      MulRegroup2(c, Pow2(s - 1));
      BitOrEven(a, half);
      BitOrIsAddition(a / 2, c, s - 1);
    }
  }

  lemma MulRegroup2(c: nat, p: nat)
    ensures c * (2 * p) == 2 * (c * p)
  {}

  // -------------------------------------------------------- specification

  /** The low seven bits. */
  function Low7(b: byte): (n: nat)
    ensures n == b as nat % 128
  {
    LowBits(b);
    (b & 0x7f) as nat
  }

  /** The high bit says that another byte follows. */
  predicate Continues(b: byte)
    ensures Continues(b) <==> b as nat >= 128
  {
    LowBits(b);
    b & 0x80 != 0
  }

  lemma LowBits(b: byte)
    ensures (b & 0x7f) as nat == b as nat % 128
    ensures b & 0x80 == 0 <==> (b as nat) < 128
  {}

  /** Little-endian value of the 7-bit groups. */
  function GroupSum(s: seq<byte>): nat {
    if s == [] then 0 else Low7(s[0]) + 128 * GroupSum(s[1..])
  }

  /** Number of bytes up to and including the first terminator, if it is among the first ten. */
  function TerminatedLength(s: seq<byte>): (n: Option<nat>)
    ensures n.Some? ==>
      && 1 <= n.value <= Min(10, |s|)
      && !Continues(s[n.value - 1])
      && forall i :: 0 <= i < n.value - 1 ==> Continues(s[i])
    ensures n.None? <==> forall i :: 0 <= i < Min(10, |s|) ==> Continues(s[i])
  {
    FirstTerminator(s, 0)
  }

  function FirstTerminator(s: seq<byte>, from: nat): (n: Option<nat>)
    requires from <= Min(10, |s|)
    ensures n.Some? ==>
      && from + 1 <= n.value <= Min(10, |s|)
      && !Continues(s[n.value - 1])
      && forall i :: from <= i < n.value - 1 ==> Continues(s[i])
    ensures n.None? <==> forall i :: from <= i < Min(10, |s|) ==> Continues(s[i])
    decreases 10 - from
  {
    if from == Min(10, |s|) then None
    else if !Continues(s[from]) then Some(from + 1)
    else FirstTerminator(s, from + 1)
  }

  lemma {:induction false} FirstTerminatorIs(s: seq<byte>, from: nat, n: nat)
    requires from < n <= Min(10, |s|) && !Continues(s[n - 1])
    requires forall i :: 0 <= i < n - 1 ==> Continues(s[i])
    ensures FirstTerminator(s, from) == Some(n)
    decreases n - from
  {
    if from != n - 1 {
      FirstTerminatorIs(s, from + 1, n);
    }
  }

  /** Value mod 2^64 and number of bytes consumed. */
  function Read(s: seq<byte>): Option<(nat, nat)> {
    match TerminatedLength(s)
    case None => None
    case Some(n) => Some((GroupSum(s[..n]) % U64, n))
  }

  /** The canonical base-128 encoder. */
  function Encode(v: nat): (s: seq<byte>)
    ensures s != []
  {
    if v < 128 then [v as byte] else [(v % 128 + 128) as byte] + Encode(v / 128)
  }

  // --------------------------------------------------------- implementation

  lemma {:induction false} GroupSumAppend(s: seq<byte>, b: byte)
    ensures GroupSum(s + [b]) == GroupSum(s) + Low7(b) * Pow2(7 * |s|)
  {
    if s != [] {
      var rest := s[1..];
      GroupSumAppend(rest, b);
      assert (s + [b])[1..] == rest + [b];
      Pow2Of7More(7 * |rest|);
      MulRegroup(Low7(b), Pow2(7 * |rest|));
    }
  }

  lemma MulRegroup(x: nat, p: nat)
    ensures x * (128 * p) == 128 * (x * p)
  {}

  lemma Pow2Of7More(k: nat)
    ensures Pow2(k + 7) == 128 * Pow2(k)
  {
    assert Pow2(k + 7) == 2 * Pow2(k + 6) == 4 * Pow2(k + 5) == 8 * Pow2(k + 4);
    assert Pow2(k + 4) == 2 * Pow2(k + 3) == 4 * Pow2(k + 2) == 8 * Pow2(k + 1);
  }

  lemma {:induction false} Pow2Monotone(a: nat, b: nat)
    requires a <= b
    ensures Pow2(a) <= Pow2(b)
  {
    if a != b {
      Pow2Monotone(a, b - 1);
    }
  }

  lemma {:induction false} Pow2Adds(a: nat, b: nat)
    ensures Pow2(a + b) == Pow2(b) * Pow2(a)
  {
    if a != 0 {
      Pow2Adds(a - 1, b);
      MulRegroup2(Pow2(b), Pow2(a - 1));
    }
  }

  lemma Squared(k: nat, p: nat)
    requires Pow2(k) == p
    ensures Pow2(2 * k) == p * p
  {
    Pow2Adds(k, k);
  }

  lemma Pow2Of64(n: nat)
    requires n == 64
    ensures Pow2(n) == U64
  {
    Squared(1, 2);
    Squared(2, 4);
    Squared(4, 16);
    Squared(8, 256);
    Squared(16, 0x1_0000);
    Squared(32, 0x1_0000_0000);
  }

  lemma TimesBelow128(x: nat, p: nat)
    requires x < 128
    ensures x * p + p <= 128 * p
  {
    assert (x + 1) * p + (127 - x) * p == 128 * p;
    assert (127 - x) * p >= 0;
  }

  /** The first nine groups fit. */
  lemma LowGroupFits(x: nat, i: nat)
    requires i < 9 && x < 128
    ensures x * Pow2(7 * i) + Pow2(7 * i) <= Pow2(7 * i + 7) <= U64
    ensures Shl64(x, 7 * i) == x * Pow2(7 * i)
  {
    TimesBelow128(x, Pow2(7 * i));
    Pow2Of7More(7 * i);
    Pow2Of64(64);
    Pow2Monotone(7 * i + 7, 64);
    ShlSmall(x, 7 * i);
  }

  lemma ShlSmall(x: nat, s: nat)
    requires x * Pow2(s) < U64
    ensures Shl64(x, s) == x * Pow2(s)
  {
    Below(x * Pow2(s), U64);
  }

  lemma Below(a: nat, m: nat)
    requires a < m
    ensures a % m == a
  {}

  /** Adding x at the top bit position h of a counter modulo 2h keeps only the low bit of x. */
  lemma TopGroup(value: nat, x: nat, h: nat)
    requires value < h
    ensures (value + x * h) % (2 * h) == value + (x % 2) * h
  {
    var r := value + (x % 2) * h;
    assert x == 2 * (x / 2) + x % 2;
    assert value + x * h == (x / 2) * (2 * h) + r by {
      TopSplit(x / 2, x % 2, h);
    }
    DivModUnique(value + x * h, 2 * h, x / 2, r);
  }

  lemma TopSplit(q: nat, r: nat, h: nat)
    ensures (2 * q + r) * h == q * (2 * h) + r * h
  {}

  /** Of the tenth group only bit 0 fits. */
  lemma TopGroupFits(value: nat, x: nat, s: nat)
    requires s == 63 && value < Pow2(s)
    ensures Shl64(x, s) == (x % 2) * Pow2(s)
    ensures (value + x * Pow2(s)) % U64 == value + (x % 2) * Pow2(s)
  {
    Pow2Of64(s + 1);
    TopGroup(0, x, Pow2(s));
    TopGroup(value, x, Pow2(s));
  }

  /** One round of the loop: shift-and-or adds the group, mod 2^64. */
  lemma GroupStep(value: nat, x: nat, i: nat)
    requires i < 10 && value < Pow2(7 * i) && x < 128
    ensures BitOr(value, Shl64(x, 7 * i)) == (value + x * Pow2(7 * i)) % U64
    ensures i < 9 ==> value + x * Pow2(7 * i) < Pow2(7 * i + 7) <= U64
  {
    var p := Pow2(7 * i);
    if i == 9 {
      TopGroupFits(value, x, 7 * i);
      BitOrIsAddition(value, x % 2, 7 * i);
    } else {
      LowGroupFits(x, i);
      BitOrIsAddition(value, x, 7 * i);
      Below(value + x * p, U64);
    }
  }

  method ReadVarint(data: seq<byte>) returns (r: Option<(nat, nat)>)
    ensures r == Read(data)
  {
    var value: nat, shift: nat := 0, 0;
    for i := 0 to Min(10, |data|)
      invariant shift == 7 * i
      invariant i < 10 ==> value == GroupSum(data[..i]) < Pow2(7 * i)
      invariant TerminatedLength(data) == FirstTerminator(data, i)
    {
      var b := data[i];
      RoundOfReading(data, value, i);
      value := BitOr(value, Shl64(Low7(b), shift));
      if b & 0x80 == 0 {
        StopsHere(data, i);
        return Some((value, i + 1));
      }
      shift := shift + 7;
    }
    return None;
  }

  lemma StopsHere(data: seq<byte>, i: nat)
    requires i < Min(10, |data|) && data[i] & 0x80 == 0
    requires TerminatedLength(data) == FirstTerminator(data, i)
    ensures Read(data) == Some((GroupSum(data[..i + 1]) % U64, i + 1))
  {}

  lemma GroupSumNext(data: seq<byte>, i: nat)
    requires i < |data|
    ensures GroupSum(data[..i + 1]) == GroupSum(data[..i]) + Low7(data[i]) * Pow2(7 * i)
  {
    GroupSumAppend(data[..i], data[i]);
    assert data[..i + 1] == data[..i] + [data[i]];
  }

  lemma RoundOfReading(data: seq<byte>, value: nat, i: nat)
    requires i < Min(10, |data|)
    requires value == GroupSum(data[..i]) < Pow2(7 * i)
    ensures BitOr(value, Shl64(Low7(data[i]), 7 * i)) == GroupSum(data[..i + 1]) % U64
    ensures i < 9 ==> GroupSum(data[..i + 1]) == GroupSum(data[..i + 1]) % U64 < Pow2(7 * (i + 1))
  {
    GroupSumNext(data, i);
    var x := Low7(data[i]);
    GroupStep(value, x, i);
    if i < 9 {
      Below(value + x * Pow2(7 * i), U64);
    }
  }

  // ------------------------------------------------------------- round trip

  lemma EncodedByte(v: nat)
    requires v < 128
    ensures !Continues(v as byte) && Low7(v as byte) == v
    ensures Continues((v + 128) as byte) && Low7((v + 128) as byte) == v
  {
    ByteOfNat(v);
    ByteOfNat(v + 128);
  }

  lemma {:induction false} EncodeValue(v: nat)
    ensures GroupSum(Encode(v)) == v
  {
    EncodedByte(v % 128);
    var s := Encode(v);
    if v >= 128 {
      EncodeValue(v / 128);
      assert s[1..] == Encode(v / 128);
      assert Low7(s[0]) == v % 128;
    } else {
      assert s[1..] == [];
    }
  }

  /** All bytes but the last continue, and n groups are enough for n * 7 bits. */
  lemma {:induction false} EncodeShape(v: nat)
    ensures !Continues(Encode(v)[|Encode(v)| - 1])
    ensures forall i :: 0 <= i < |Encode(v)| - 1 ==> Continues(Encode(v)[i])
  {
    EncodedByte(v % 128);
    if v >= 128 {
      EncodeShape(v / 128);
      var s, rest := Encode(v), Encode(v / 128);
      assert forall i :: 0 < i < |s| ==> s[i] == rest[i - 1];
    }
  }

  lemma {:induction false} EncodeLength(v: nat, groups: nat)
    requires 0 < groups && v < Pow2(7 * groups)
    ensures |Encode(v)| <= groups
    decreases v
  {
    if v >= 128 {
      if groups == 1 {
        Pow2Of7More(0);
      }
      Pow2Of7More(7 * (groups - 1));
      EncodeLength(v / 128, groups - 1);
    }
  }

  /** Reading inverts the canonical encoder for every u64, whatever follows. */
  lemma ReadInvertsEncode(v: nat, rest: seq<byte>)
    requires v < U64
    ensures 1 <= |Encode(v)| <= 10
    ensures Read(Encode(v) + rest) == Some((v, |Encode(v)|))
  {
    FitsTenGroups(v, 10);
    EncodeLength(v, 10);
    EncodeShape(v);
    EncodeValue(v);
    ReadSmall(Encode(v), v, rest);
  }

  lemma ReadSmall(s: seq<byte>, v: nat, rest: seq<byte>)
    requires 1 <= |s| <= 10 && !Continues(s[|s| - 1])
    requires forall i :: 0 <= i < |s| - 1 ==> Continues(s[i])
    requires GroupSum(s) == v < U64
    ensures Read(s + rest) == Some((v, |s|))
  {
    ReadTerminated(s, rest);
  }

  lemma FitsTenGroups(v: nat, groups: nat)
    requires v < U64 && groups == 10
    ensures v < Pow2(7 * groups)
  {
    Pow2Of64(64);
    Pow2Monotone(64, 7 * groups);
  }

  /** A terminated group of at most ten bytes is read as such, whatever follows. */
  lemma ReadTerminated(s: seq<byte>, rest: seq<byte>)
    requires 1 <= |s| <= 10 && !Continues(s[|s| - 1])
    requires forall i :: 0 <= i < |s| - 1 ==> Continues(s[i])
    ensures Read(s + rest) == Some((GroupSum(s) % U64, |s|))
  {
    var t := s + rest;
    assert t[..|s|] == s;
    FirstTerminatorIs(t, 0, |s|);
  }

  /** What was read does not depend on bytes further right. */
  lemma ReadExtends(s: seq<byte>, rest: seq<byte>)
    requires Read(s).Some?
    ensures Read(s + rest) == Read(s)
  {
    var n := TerminatedLength(s).value;
    ReadTerminated(s[..n], s[n..]);
    ReadTerminated(s[..n], s[n..] + rest);
    assert s == s[..n] + s[n..] && s + rest == s[..n] + (s[n..] + rest);
  }

  /** Ten bytes decide: whether a value can be read, and which. */
  lemma ReadTenBytes(s: seq<byte>, rest: seq<byte>)
    requires |s| >= 10
    ensures Read(s + rest) == Read(s)
  {
    if Read(s).Some? {
      ReadExtends(s, rest);
    } else {
      assert forall i :: 0 <= i < 10 ==> (s + rest)[i] == s[i];
    }
  }
}
