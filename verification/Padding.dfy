/** Padding removal in place, and what was removed. */
module Padding {
  import opened Bytes

  datatype Label = Pkcs7 | Zero

  /** A `Vec<u8>`, which the two strippers truncate in place. */
  class ByteVec {
    var data: seq<byte>

    constructor (data: seq<byte>)
      ensures this.data == data
    {
      this.data := data;
    }
  }

  // -------------------------------------------------------- specification

  function Repeat(b: byte, n: nat): seq<byte> {
    seq(n, _ => b)
  }

  /** The string ends in n bytes of value n, 1 <= n (section 6.3 of RFC 5652; n is not bounded by a block size). */
  predicate EndsInPkcs7(s: seq<byte>) {
    && s != []
    && var n := s[|s| - 1] as nat;
       1 <= n <= |s| && s[|s| - n..] == Repeat(s[|s| - 1], n)
  }

  function WithoutZeros(s: seq<byte>): seq<byte> {
    if s != [] && s[|s| - 1] == 0 then WithoutZeros(s[..|s| - 1]) else s
  }

  /** What is left of `s`, and which padding was taken off. */
  function Unpad(s: seq<byte>): (seq<byte>, Label) {
    if EndsInPkcs7(s) then (s[..|s| - s[|s| - 1] as nat], Pkcs7) else (WithoutZeros(s), Zero)
  }

  /** Puts a padding of the given kind back, up to `len` bytes. */
  function Refill(s: seq<byte>, kind: Label, len: nat): seq<byte> {
    if len < |s| then s
    else
      var n := len - |s|;
      match kind
      case Pkcs7 => s + Repeat((n % 256) as byte, n)
      case Zero => s + Repeat(0, n)
  }

  /** PKCS#7 padding of a message for a cipher with blocks of `block` bytes. */
  function Pkcs7Pad(msg: seq<byte>, block: nat): seq<byte>
    requires 0 < block < 256
  {
    var n := block - |msg| % block;
    msg + Repeat(n as byte, n)
  }

  lemma {:induction false} RefillZeros(s: seq<byte>)
    ensures |WithoutZeros(s)| <= |s|
    ensures s == WithoutZeros(s) + Repeat(0, |s| - |WithoutZeros(s)|)
  {
    if s != [] && s[|s| - 1] == 0 {
      RefillZeros(s[..|s| - 1]);
      assert s == s[..|s| - 1] + [0];
    }
  }

  /** Stripping zeros off the end of a text reaches into its first part only if the rest is all zeros. */
  lemma {:induction false} WithoutZerosAppend(a: seq<byte>, b: seq<byte>)
    ensures WithoutZeros(a + b) == if WithoutZeros(b) == [] then WithoutZeros(a) else a + WithoutZeros(b)
    decreases |b|
  {
    if b == [] {
      assert a + b == a;
    } else if b[|b| - 1] == 0 {
      WithoutZerosAppend(a, b[..|b| - 1]);
      assert (a + b)[..|a + b| - 1] == a + b[..|b| - 1];
    }
  }

  /** Nothing is lost: refilling what is left gives the string back. */
  lemma RefillUndoesUnpad(s: seq<byte>)
    ensures Refill(Unpad(s).0, Unpad(s).1, |s|) == s
  {
    if EndsInPkcs7(s) {
      var n := s[|s| - 1] as nat;
      NatOfByte(s[|s| - 1]);
      assert s == s[..|s| - n] + s[|s| - n..];
    } else {
      RefillZeros(s);
    }
  }

  /** A PKCS#7-padded message comes back exactly, whatever precedes it. */
  lemma UnpadUndoesPad(head: seq<byte>, msg: seq<byte>, block: nat)
    requires 0 < block < 256
    ensures Unpad(head + Pkcs7Pad(msg, block)) == (head + msg, Pkcs7)
  {
    var n := block - |msg| % block;
    ByteOfNat(n);
    var s := head + Pkcs7Pad(msg, block);
    assert s[|s| - n..] == Repeat(n as byte, n);
    assert s[..|s| - n] == head + msg;
  }

  // ----------------------------------------------- what stripping means

  /** The text goes on from `left` with n bytes of value n. */
  ghost predicate HasPkcs7(s: seq<byte>, left: seq<byte>, n: nat) {
    1 <= n < 256 && s == left + Repeat(n as byte, n)
  }

  /** The text goes on from `left` with zero bytes only, and `left` does not end in one. */
  ghost predicate HasZeros(s: seq<byte>, left: seq<byte>) {
    && |left| <= |s| && s == left + Repeat(0, |s| - |left|)
    && (left == [] || left[|left| - 1] != 0)
  }

  /** PKCS#7 padding goes first; only a text without it loses its trailing zeros, all of them. */
  ghost predicate StripsTo(s: seq<byte>, left: seq<byte>, kind: Label) {
    match kind
    case Pkcs7 => exists n: nat :: HasPkcs7(s, left, n)
    case Zero => HasZeros(s, left) && forall other: seq<byte>, n: nat :: !HasPkcs7(s, other, n)
  }

  lemma Pkcs7End(s: seq<byte>, left: seq<byte>, n: nat)
    requires HasPkcs7(s, left, n)
    ensures EndsInPkcs7(s) && Unpad(s) == (left, Pkcs7)
  {
    ByteOfNat(n);
    assert s[|s| - n..] == Repeat(n as byte, n) && s[..|s| - n] == left;
  }

  lemma Pkcs7Start(s: seq<byte>)
    requires EndsInPkcs7(s)
    ensures HasPkcs7(s, Unpad(s).0, s[|s| - 1] as nat)
  {
    var n := s[|s| - 1] as nat;
    NatOfByte(s[|s| - 1]);
    assert s == s[..|s| - n] + s[|s| - n..];
  }

  lemma {:induction false} WithoutZerosEnd(s: seq<byte>)
    ensures WithoutZeros(s) == [] || WithoutZeros(s)[|WithoutZeros(s)| - 1] != 0
  {
    if s != [] && s[|s| - 1] == 0 {
      WithoutZerosEnd(s[..|s| - 1]);
    }
  }

  lemma ZerosUnique(s: seq<byte>, left: seq<byte>, other: seq<byte>)
    requires HasZeros(s, left) && HasZeros(s, other)
    ensures left == other
  {
    assert left == s[..|left|] && other == s[..|other|];
    assert forall i :: |left| <= i < |s| ==> s[i] == 0;
    assert forall i :: |other| <= i < |s| ==> s[i] == 0;
    assert left == [] || s[|left| - 1] != 0;
    assert other == [] || s[|other| - 1] != 0;
  }

  /** Every text strips to exactly one remainder and kind: those of `Unpad`. */
  lemma UnpadIsExact(s: seq<byte>, left: seq<byte>, kind: Label)
    ensures Unpad(s) == (left, kind) <==> StripsTo(s, left, kind)
  {
    if EndsInPkcs7(s) {
      Pkcs7Start(s);
    } else {
      RefillZeros(s);
      WithoutZerosEnd(s);
      assert HasZeros(s, WithoutZeros(s));
    }
    if n: nat, other: seq<byte> :| HasPkcs7(s, other, n) {
      Pkcs7End(s, other, n);
    }
    if HasZeros(s, left) && !EndsInPkcs7(s) {
      ZerosUnique(s, left, WithoutZeros(s));
    }
    if kind == Pkcs7 && StripsTo(s, left, kind) {
      var n: nat :| HasPkcs7(s, left, n);
      Pkcs7End(s, left, n);
    }
  }

  /** A zero-padded message comes back exactly, unless it ends in a zero byte or reads as PKCS#7. */
  lemma UnpadUndoesZeros(msg: seq<byte>, k: nat)
    requires msg == [] || msg[|msg| - 1] != 0
    requires k > 0 || !EndsInPkcs7(msg)
    ensures Unpad(msg + Repeat(0, k)) == (msg, Zero)
  {
    var s := msg + Repeat(0, k);
    if k > 0 {
      assert s[|s| - 1] == 0;
    } else {
      assert s == msg;
    }
    if n: nat, other: seq<byte> :| HasPkcs7(s, other, n) {
      Pkcs7End(s, other, n);
    }
    UnpadIsExact(s, msg, Zero);
  }

  // --------------------------------------------------------- implementation

  method StripPkcs7(plaintext: ByteVec) returns (stripped: bool)
    modifies plaintext
    ensures stripped == EndsInPkcs7(old(plaintext.data))
    ensures plaintext.data == if stripped then Unpad(old(plaintext.data)).0 else old(plaintext.data)
  {
    if plaintext.data == [] {
      return false;
    }
    var last := plaintext.data[|plaintext.data| - 1];
    var n := last as nat;
    if n == 0 || n > |plaintext.data| || n > 255 {
      return false;
    }
    var tail := plaintext.data[|plaintext.data| - n..];
    if forall i :: 0 <= i < |tail| ==> tail[i] == last {
      assert tail == Repeat(last, n);
      plaintext.data := plaintext.data[..|plaintext.data| - n];
      return true;
    } else {
      return false;
    }
  }

  method StripZero(plaintext: ByteVec) returns (stripped: bool)
    modifies plaintext
    ensures stripped
    ensures plaintext.data == WithoutZeros(old(plaintext.data))
  {
    while plaintext.data != [] && plaintext.data[|plaintext.data| - 1] == 0
      invariant WithoutZeros(plaintext.data) == WithoutZeros(old(plaintext.data))
      decreases |plaintext.data|
    {
      plaintext.data := plaintext.data[..|plaintext.data| - 1];
    }
    return true;
  }
}
