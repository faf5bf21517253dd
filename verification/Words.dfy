/** 32-bit words as four bytes, most significant first. */
module Words {
  import opened Bytes

  type Word = w: seq<byte> | |w| == 4 witness [0, 0, 0, 0]

  function Xor4(a: Word, b: Word): Word {
    Xor(a, b)
  }

  lemma Xor4Injective(a: Word, b: Word, c: Word)
    ensures Xor4(a, b) == Xor4(a, c) <==> b == c
    ensures Xor4(b, a) == Xor4(c, a) <==> b == c
  {
    XorCancels(b, a);
    XorCancels(c, a);
  }

  function Xor3(a: Word, b: Word, c: Word): Word {
    Xor4(Xor4(a, b), c)
  }

  function WordAt(dump: seq<byte>, o: nat): Word
    requires o + 4 <= |dump|
  {
    dump[o..o + 4]
  }

  /** Each byte replaced through a box. */
  function Substitute(box: byte -> byte, w: Word): Word {
    seq(4, i requires 0 <= i < 4 => box(w[i]))
  }

  // ----------------------------------------------------------- rotations

  /** Four bytes as a u32. */
  function Pack(a: byte, b: byte, c: byte, d: byte): bv32 {
    (a as bv32 << 24) | (b as bv32 << 16) | (c as bv32 << 8) | d as bv32
  }

  /** `rotate_left(13)`: one byte and five bits. */
  function RotateLeft13(w: Word): Word {
    [(w[1] << 5) | (w[2] >> 3), (w[2] << 5) | (w[3] >> 3), (w[3] << 5) | (w[0] >> 3), (w[0] << 5) | (w[1] >> 3)]
  }

  /** `rotate_left(23)`: two bytes and seven bits. */
  function RotateLeft23(w: Word): Word {
    [(w[2] << 7) | (w[3] >> 1), (w[3] << 7) | (w[0] >> 1), (w[0] << 7) | (w[1] >> 1), (w[1] << 7) | (w[2] >> 1)]
  }

  lemma PackRotates(a: byte, b: byte, c: byte, d: byte)
    ensures Pack((b << 5) | (c >> 3), (c << 5) | (d >> 3), (d << 5) | (a >> 3), (a << 5) | (b >> 3))
         == (Pack(a, b, c, d) << 13) | (Pack(a, b, c, d) >> 19)
    ensures Pack((c << 7) | (d >> 1), (d << 7) | (a >> 1), (a << 7) | (b >> 1), (b << 7) | (c >> 1))
         == (Pack(a, b, c, d) << 23) | (Pack(a, b, c, d) >> 9)
  {}

  /** The byte-wise rotations are the rotations of the 32-bit word. */
  lemma RotationsAreRotations(a: byte, b: byte, c: byte, d: byte)
    ensures var r := RotateLeft13([a, b, c, d]);
            Pack(r[0], r[1], r[2], r[3]) == (Pack(a, b, c, d) << 13) | (Pack(a, b, c, d) >> 19)
    ensures var r := RotateLeft23([a, b, c, d]);
            Pack(r[0], r[1], r[2], r[3]) == (Pack(a, b, c, d) << 23) | (Pack(a, b, c, d) >> 9)
  {
    PackRotates(a, b, c, d);
  }

  // ------------------------------------------------------------ bit by bit

  /** Bit j of a byte, the most significant first. */
  function BitOf(b: byte, j: nat): bool
    requires j < 8
  {
    match j
    case 0 => b & 0x80 != 0
    case 1 => b & 0x40 != 0
    case 2 => b & 0x20 != 0
    case 3 => b & 0x10 != 0
    case 4 => b & 0x08 != 0
    case 5 => b & 0x04 != 0
    case 6 => b & 0x02 != 0
    case _ => b & 0x01 != 0
  }

  /** Bit k of a word, the most significant first, for any k mod 32. */
  function Bit(w: Word, k: nat): bool {
    BitOf(w[k % 32 / 8], k % 8)
  }

  lemma XorFirstBits(a: byte, b: byte, j: nat)
    requires j < 2
    ensures BitOf(a ^ b, j) == (BitOf(a, j) != BitOf(b, j))
  {}

  lemma XorNextBits(a: byte, b: byte, j: nat)
    requires 2 <= j < 4
    ensures BitOf(a ^ b, j) == (BitOf(a, j) != BitOf(b, j))
  {}

  lemma XorLowBits(a: byte, b: byte, j: nat)
    requires 4 <= j < 8
    ensures BitOf(a ^ b, j) == (BitOf(a, j) != BitOf(b, j))
  {}

  lemma XorBit(a: byte, b: byte, j: nat)
    requires j < 8
    ensures BitOf(a ^ b, j) == (BitOf(a, j) != BitOf(b, j))
  {
    if j < 2 {
      XorFirstBits(a, b, j);
    } else if j < 4 {
      XorNextBits(a, b, j);
    } else {
      XorLowBits(a, b, j);
    }
  }

  lemma ShiftedHigh13(x: byte, y: byte, z: byte, j: nat)
    requires j < 3 && z == (x << 5) | (y >> 3)
    ensures BitOf(z, j) == BitOf(x, j + 5)
  {}

  lemma ShiftedLow13(x: byte, y: byte, z: byte, j: nat)
    requires 3 <= j < 8 && z == (x << 5) | (y >> 3)
    ensures BitOf(z, j) == BitOf(y, j - 3)
  {}

  lemma ShiftedHigh23(x: byte, y: byte, z: byte)
    requires z == (x << 7) | (y >> 1)
    ensures BitOf(z, 0) == BitOf(x, 7)
  {}

  lemma ShiftedLow23(x: byte, y: byte, z: byte, j: nat)
    requires 1 <= j < 8 && z == (x << 7) | (y >> 1)
    ensures BitOf(z, j) == BitOf(y, j - 1)
  {}

  /** Rotated to the left by n, the word has at k what it had at k + n. */
  lemma RotatedBytes(w: Word, i: nat)
    requires i < 4
    ensures RotateLeft13(w)[i] == (w[(i + 1) % 4] << 5) | (w[(i + 2) % 4] >> 3)
    ensures RotateLeft23(w)[i] == (w[(i + 2) % 4] << 7) | (w[(i + 3) % 4] >> 1)
  {
    if i == 0 {
    } else if i == 1 {
    } else if i == 2 {
    }
  }

  lemma Index13(k: nat)
    ensures k % 8 < 3 ==> (k + 13) % 32 / 8 == (k % 32 / 8 + 1) % 4 && (k + 13) % 8 == k % 8 + 5
    ensures k % 8 >= 3 ==> (k + 13) % 32 / 8 == (k % 32 / 8 + 2) % 4 && (k + 13) % 8 == k % 8 - 3
  {
    BitIndex(k, 13);
  }

  lemma Index23(k: nat)
    ensures k % 8 == 0 ==> (k + 23) % 32 / 8 == (k % 32 / 8 + 2) % 4 && (k + 23) % 8 == 7
    ensures k % 8 >= 1 ==> (k + 23) % 32 / 8 == (k % 32 / 8 + 3) % 4 && (k + 23) % 8 == k % 8 - 1
  {
    BitIndex(k, 23);
  }

  lemma RotatedBits13(w: Word, i: nat, j: nat)
    requires i < 4 && j < 8
    ensures j < 3 ==> BitOf(RotateLeft13(w)[i], j) == BitOf(w[(i + 1) % 4], j + 5)
    ensures j >= 3 ==> BitOf(RotateLeft13(w)[i], j) == BitOf(w[(i + 2) % 4], j - 3)
  {
    RotatedBytes(w, i);
    if j < 3 {
      ShiftedHigh13(w[(i + 1) % 4], w[(i + 2) % 4], RotateLeft13(w)[i], j);
    } else {
      ShiftedLow13(w[(i + 1) % 4], w[(i + 2) % 4], RotateLeft13(w)[i], j);
    }
  }

  lemma RotatedBits23(w: Word, i: nat, j: nat)
    requires i < 4 && j < 8
    ensures j == 0 ==> BitOf(RotateLeft23(w)[i], j) == BitOf(w[(i + 2) % 4], 7)
    ensures j >= 1 ==> BitOf(RotateLeft23(w)[i], j) == BitOf(w[(i + 3) % 4], j - 1)
  {
    RotatedBytes(w, i);
    if j == 0 {
      ShiftedHigh23(w[(i + 2) % 4], w[(i + 3) % 4], RotateLeft23(w)[i]);
    } else {
      ShiftedLow23(w[(i + 2) % 4], w[(i + 3) % 4], RotateLeft23(w)[i], j);
    }
  }

  lemma Rotation13(w: Word, k: nat)
    ensures Bit(RotateLeft13(w), k) == Bit(w, k + 13)
  {
    Index13(k);
    RotatedBits13(w, k % 32 / 8, k % 8);
  }

  lemma Rotation23(w: Word, k: nat)
    ensures Bit(RotateLeft23(w), k) == Bit(w, k + 23)
  {
    Index23(k);
    RotatedBits23(w, k % 32 / 8, k % 8);
  }

  /** Where bit k + n of a word lies. */
  lemma BitIndex(k: nat, n: nat)
    requires n < 32
    ensures var i, j := k % 32 / 8, k % 8;
      (k + n) % 32 / 8 == (i + (j + n) / 8) % 4 && (k + n) % 8 == (j + n) % 8
  {
    var q, i, j := k / 32, k % 32 / 8, k % 8;
    EightTimes(k);
    var a, b := (j + n) / 8, (j + n) % 8;
    var c, d := (i + a) / 4, (i + a) % 4;
    assert k + n == 32 * (q + c) + 8 * d + b;
    DivModUnique(k + n, 32, q + c, 8 * d + b);
    DivModUnique(8 * d + b, 8, d, b);
    DivModUnique(k + n, 8, 4 * (q + c) + d, b);
  }

  lemma EightTimes(k: nat)
    ensures k == 32 * (k / 32) + 8 * (k % 32 / 8) + k % 8
  {
    var q, r := k / 32, k % 32;
    DivModUnique(k, 8, 4 * q + r / 8, r % 8);
  }

  lemma XorByte(a: Word, b: Word, i: nat)
    requires i < 4
    ensures Xor4(a, b)[i] == a[i] ^ b[i]
  {}

  lemma XorBits(a: Word, b: Word, k: nat)
    ensures Bit(Xor4(a, b), k) == (Bit(a, k) != Bit(b, k))
  {
    var i := k % 32 / 8;
    XorByte(a, b, i);
    XorBit(a[i], b[i], k % 8);
  }
}
