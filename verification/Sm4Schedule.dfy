/**
 * Detection of SM4 key schedules (GB/T 32907-2016, section 7.3), for arbitrary tables.
 */
module Sm4Schedule {
  import opened Bytes
  import opened Results
  import opened Words

  type Box = byte -> byte

  /** The S-box and the constants FK and CK. */
  datatype Params = Params(box: Box, fk: seq<Word>, ck: seq<Word>) {
    predicate Valid() {
      |fk| == 4 && |ck| == 32
    }
  }

  // -------------------------------------------------------- specification

  /** T'(a) = B ^ (B <<< 13) ^ (B <<< 23) with B = tau(a). */
  function TPrime(box: Box, a: Word): Word {
    var b := Substitute(box, a);
    Xor3(b, RotateLeft13(b), RotateLeft23(b))
  }

  /** K[i] = MK[i] ^ FK[i], K[i+4] = K[i] ^ T'(K[i+1] ^ K[i+2] ^ K[i+3] ^ CK[i]); round key i is K[i+4]. */
  function K(p: Params, mk: seq<Word>, i: nat): Word
    requires p.Valid() && |mk| == 4 && i < 36
  {
    if i < 4 then Xor4(mk[i], p.fk[i])
    else
      var mixed := Xor3(K(p, mk, i - 3), K(p, mk, i - 2), K(p, mk, i - 1));
      Xor4(K(p, mk, i - 4), TPrime(p.box, Xor4(mixed, p.ck[i - 4])))
  }

  function MasterWords(key: seq<byte>): seq<Word>
    requires |key| == 16
  {
    [WordAt(key, 0), WordAt(key, 4), WordAt(key, 8), WordAt(key, 12)]
  }

  /** Round key r of a master key. */
  function RoundKey(p: Params, key: seq<byte>, r: nat): Word
    requires p.Valid() && |key| == 16 && r < 32
  {
    K(p, MasterWords(key), r + 4)
  }

  /** The window is a key followed by its first round key. */
  predicate IsHead(p: Params, dump: seq<byte>, offset: nat)
    requires p.Valid()
  {
    && offset + 20 <= |dump|
    && var key := dump[offset..offset + 16];
       dump[offset..offset + 20] == key + RoundKey(p, key, 0)
  }

  // --------------------------------------------------------- implementation

  /** `sm4_tau`: substitutes the bytes of a buffer in place. */
  method SubstituteBytes(box: Box, a: Word) returns (r: Word)
    ensures r == Substitute(box, a)
  {
    var buf := new byte[4](i requires 0 <= i < 4 => a[i]);
    for i := 0 to 4
      invariant forall j :: 0 <= j < i ==> buf[j] == box(a[j])
      invariant forall j :: i <= j < 4 ==> buf[j] == a[j]
    {
      buf[i] := box(buf[i]);
    }
    r := buf[..];
  }

  /** `sm4_t_prime` */
  method ComputeTPrime(box: Box, a: Word) returns (r: Word)
    ensures r == TPrime(box, a)
  {
    var b := SubstituteBytes(box, a);
    r := Xor4(Xor4(b, RotateLeft13(b)), RotateLeft23(b));
  }

  /**
   * The in-place ring update: slot j is replaced by K[j+4] while the later slots still
   * hold the older words, so each step reads the three words before K[j+4].
   */
  method UpdateRing(p: Params, mk: seq<Word>) returns (k: seq<Word>)
    requires p.Valid() && |mk| == 4
    ensures |k| == 4 && forall j :: 0 <= j < 4 ==> k[j] == K(p, mk, j + 4)
  {
    k := [Xor4(mk[0], p.fk[0]), Xor4(mk[1], p.fk[1]), Xor4(mk[2], p.fk[2]), Xor4(mk[3], p.fk[3])];
    for j := 0 to 4
      invariant |k| == 4
      invariant forall s :: 0 <= s < j ==> k[s] == K(p, mk, s + 4)
      invariant forall s :: j <= s < 4 ==> k[s] == K(p, mk, s)
    {
      var mixed :=
        if j == 0 then Xor3(k[1], k[2], k[3])
        else if j == 1 then Xor3(k[2], k[3], k[0])
        else if j == 2 then Xor3(k[3], k[0], k[1])
        else Xor3(k[0], k[1], k[2]);
      var t := ComputeTPrime(p.box, Xor4(mixed, p.ck[j]));
      k := k[j := Xor4(k[j], t)];
    }
  }

  /** `sm4_schedule_head_valid`. */
  method ScheduleHeadValid(p: Params, dump: seq<byte>, offset: nat) returns (r: Option<nat>)
    requires p.Valid()
    ensures r == if IsHead(p, dump, offset) then Some(1) else None
  {
    if offset + 20 > |dump| {
      return None;
    }
    var key := dump[offset..offset + 16];
    var k := UpdateRing(p, MasterWords(key));
    var rk0 := k[0];
    var actual := dump[offset + 16..offset + 20];
    assert dump[offset..offset + 20] == key + actual;
    if actual == rk0 {
      return Some(1);
    }
    assert (key + actual)[16..] == actual && (key + RoundKey(p, key, 0))[16..] == RoundKey(p, key, 0);
    return None;
  }

  // -------------------------------------------------------------- theorems

  /** T' on bits: each bit of the substituted word, added to those 13 and 23 places further on. */
  lemma TPrimeIsDiffusion(box: Box, a: Word, k: nat)
    ensures var b := Substitute(box, a);
      Bit(TPrime(box, a), k) == ((Bit(b, k) != Bit(b, k + 13)) != Bit(b, k + 23))
  {
    var b := Substitute(box, a);
    Rotation13(b, k);
    Rotation23(b, k);
    XorBits(b, RotateLeft13(b), k);
    XorBits(Xor4(b, RotateLeft13(b)), RotateLeft23(b), k);
  }

  /** The first words of the recurrence, spelt out. */
  lemma FirstWords(p: Params, mk: seq<Word>, a: Word, b: Word, c: Word, d: Word, input: Word, sub: Word)
    requires p.Valid() && |mk| == 4
    requires a == Xor4(mk[0], p.fk[0]) && b == Xor4(mk[1], p.fk[1])
    requires c == Xor4(mk[2], p.fk[2]) && d == Xor4(mk[3], p.fk[3])
    requires input == Xor4(Xor3(b, c, d), p.ck[0]) && sub == Substitute(p.box, input)
    ensures K(p, mk, 4) == Xor4(a, Xor3(sub, RotateLeft13(sub), RotateLeft23(sub)))
  {
    assert K(p, mk, 0) == a && K(p, mk, 1) == b && K(p, mk, 2) == c && K(p, mk, 3) == d;
  }

  lemma ExampleInput()
    ensures Xor4([0x01, 0x23, 0x45, 0x67], [0xa3, 0xb1, 0xba, 0xc6]) == [0xa2, 0x92, 0xff, 0xa1]
    ensures Xor4([0x89, 0xab, 0xcd, 0xef], [0x56, 0xaa, 0x33, 0x50]) == [0xdf, 0x01, 0xfe, 0xbf]
    ensures Xor4([0xfe, 0xdc, 0xba, 0x98], [0x67, 0x7d, 0x91, 0x97]) == [0x99, 0xa1, 0x2b, 0x0f]
    ensures Xor4([0x76, 0x54, 0x32, 0x10], [0xb2, 0x70, 0x22, 0xdc]) == [0xc4, 0x24, 0x10, 0xcc]
    ensures var mixed := Xor3([0xdf, 0x01, 0xfe, 0xbf], [0x99, 0xa1, 0x2b, 0x0f], [0xc4, 0x24, 0x10, 0xcc]);
      Xor4(mixed, [0x00, 0x07, 0x0e, 0x15]) == [0x82, 0x83, 0xcb, 0x69]
  {}

  lemma ExampleOutput()
    ensures RotateLeft13([0x8a, 0xd2, 0x41, 0x22]) == [0x48, 0x24, 0x51, 0x5a]
    ensures RotateLeft23([0x8a, 0xd2, 0x41, 0x22]) == [0x91, 0x45, 0x69, 0x20]
    ensures var sum := Xor3([0x8a, 0xd2, 0x41, 0x22], [0x48, 0x24, 0x51, 0x5a], [0x91, 0x45, 0x69, 0x20]);
      Xor4([0xa2, 0x92, 0xff, 0xa1], sum) == [0xf1, 0x21, 0x86, 0xf9]
  {}

  /** The first round key of the example in appendix A of GB/T 32907-2016, for a box with these four entries. */
  lemma ExampleRoundKey(p: Params, mk: seq<Word>)
    requires p.Valid() && p.ck[0] == [0x00, 0x07, 0x0e, 0x15]
    requires p.fk[0] == [0xa3, 0xb1, 0xba, 0xc6] && p.fk[1] == [0x56, 0xaa, 0x33, 0x50]
    requires p.fk[2] == [0x67, 0x7d, 0x91, 0x97] && p.fk[3] == [0xb2, 0x70, 0x22, 0xdc]
    requires |mk| == 4 && mk[0] == [0x01, 0x23, 0x45, 0x67] && mk[1] == [0x89, 0xab, 0xcd, 0xef]
    requires mk[2] == [0xfe, 0xdc, 0xba, 0x98] && mk[3] == [0x76, 0x54, 0x32, 0x10]
    requires p.box(0x82) == 0x8a && p.box(0x83) == 0xd2 && p.box(0xcb) == 0x41 && p.box(0x69) == 0x22
    ensures K(p, mk, 4) == [0xf1, 0x21, 0x86, 0xf9]
  {
    ExampleInput();
    ExampleOutput();
    assert Substitute(p.box, [0x82, 0x83, 0xcb, 0x69]) == [0x8a, 0xd2, 0x41, 0x22];
    FirstWords(p, mk, [0xa2, 0x92, 0xff, 0xa1], [0xdf, 0x01, 0xfe, 0xbf], [0x99, 0xa1, 0x2b, 0x0f],
               [0xc4, 0x24, 0x10, 0xcc], [0x82, 0x83, 0xcb, 0x69], [0x8a, 0xd2, 0x41, 0x22]);
  }

  /** Two master keys whose schedules agree on four consecutive words agree altogether. */
  lemma {:induction false} WordsDetermineKey(p: Params, a: seq<Word>, b: seq<Word>, s: nat)
    requires p.Valid() && |a| == |b| == 4 && s + 3 < 36
    requires K(p, a, s) == K(p, b, s) && K(p, a, s + 1) == K(p, b, s + 1)
    requires K(p, a, s + 2) == K(p, b, s + 2) && K(p, a, s + 3) == K(p, b, s + 3)
    ensures a == b
  {
    if s == 0 {
      Xor4Injective(p.fk[0], a[0], b[0]);
      Xor4Injective(p.fk[1], a[1], b[1]);
      Xor4Injective(p.fk[2], a[2], b[2]);
      Xor4Injective(p.fk[3], a[3], b[3]);
    } else {
      var mixed := Xor3(K(p, a, s), K(p, a, s + 1), K(p, a, s + 2));
      Xor4Injective(TPrime(p.box, Xor4(mixed, p.ck[s - 1])), K(p, a, s - 1), K(p, b, s - 1));
      WordsDetermineKey(p, a, b, s - 1);
    }
  }
}
