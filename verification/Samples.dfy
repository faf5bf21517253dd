/**
 * For every built-in oracle but the known fragment, a text it accepts, and texts around it
 * with which it does not.
 */
module Samples {
  import opened Bytes
  import opened Carrying
  import opened Oracles
  import Padding
  import Utf8
  import Varint

  /** A block that is not UTF-8. */
  const GARBAGE: seq<byte> := Padding.Repeat(0xFF, 16)

  /** A block of PKCS#7 padding. */
  const PAD_BLOCK: seq<byte> := Padding.Repeat(0x10, 16)

  function Letters(n: nat): seq<byte> {
    Padding.Repeat(0x41, n)
  }

  /** ASCII as UTF-16LE. */
  function Widened(s: seq<byte>): seq<byte> {
    if s == [] then [] else [s[0], 0] + Widened(s[1..])
  }

  function Alternating(): seq<byte> {
    seq(16, i => if i % 2 == 0 then 0x41 else 0x42)
  }

  /** A text of 32 bytes that the oracle accepts. */
  ghost predicate IsSample(o: Oracle, s: seq<byte>) {
    || (o == Utf8Oracle() && s == Letters(32))
    || (o == JsonOracle() && s == [0x7B, 0x22] + Letters(30))
    || (o == Utf16LeOracle() && s == Widened(Alternating()))
    || (o == GzipOracle() && s == [0x1f, 0x8b, 0x08, 0x00] + Letters(28))
    || (o == ProtobufOracle() && s == [0x0a, 0x01] + Letters(30))
  }

  lemma AsciiIsPrintable(s: seq<byte>)
    requires s != [] && forall i :: 0 <= i < |s| ==> 0x20 <= s[i] < 0x7F
    ensures Utf8.AllPrintable(s) && Utf8Verify(s)
  {
    var ds := DigitsOf(s);
    forall i | 0 <= i < |s|
      ensures 0x20 <= ds[i] < 0x7F
    {
      assert s[i] as nat == ds[i];
    }
    Utf8.AsciiDecodes(ds);
    Utf8.CountAll(ds);
  }

  lemma {:induction false} WidenedUnits(s: seq<byte>)
    ensures |Widened(s)| == 2 * |s| && Units(Widened(s)) == DigitsOf(s)
    ensures s != [] ==> Widened(s)[2 * |s| - 2] == s[|s| - 1]
  {
    if s != [] {
      WidenedUnits(s[1..]);
      UnitsAppend([s[0], 0], Widened(s[1..]));
      assert Units([s[0], 0]) == [s[0] as nat] by {
        assert DigitsOf([s[0], 0]) == [s[0] as nat, 0];
        assert UnitsOf([s[0] as nat, 0]) == [s[0] as nat];
      }
      assert DigitsOf(s) == [s[0] as nat] + DigitsOf(s[1..]);
    } else {
      assert DigitsOf(s) == [];
    }
  }

  lemma {:induction false} CountAsciiAll(us: seq<nat>)
    requires forall i :: 0 <= i < |us| ==> 0x20 <= us[i] < 0x7f
    ensures CountAscii(us) == |us|
  {
    if us != [] {
      CountAsciiAll(us[1..]);
    }
  }

  /** Four ASCII characters or more, not all the same, are UTF-16LE text. */
  lemma WidenedIsText(s: seq<byte>)
    requires |s| >= 4 && s[0] != s[1] && forall i :: 0 <= i < |s| ==> 0x20 <= s[i] < 0x7F
    ensures |Units(Widened(s))| == |s| && Utf16LeVerify(Widened(s))
  {
    WidenedUnits(s);
    var us := DigitsOf(s);
    forall i | 0 <= i < |s|
      ensures 0x20 <= us[i] < 0x7f
    {
      assert us[i] == s[i] as nat;
    }
    CountAsciiAll(us);
    NatOfByte(s[0]);
    NatOfByte(s[1]);
    assert us[0] != us[1];
    assert WithoutZeroUnits(Widened(s)) == Widened(s);
  }

  lemma AlternatingIsText()
    ensures Utf16LeVerify(Widened(Alternating()))
    ensures |Widened(Alternating())| == 32 && |Units(Widened(Alternating()))| == 16
  {
    WidenedUnits(Alternating());
    WidenedIsText(Alternating());
  }

  lemma ProtobufSample()
    ensures ProtobufVerify([0x0a, 0x01] + Letters(30))
  {
    var s: seq<byte> := [0x0a, 0x01] + Letters(30);
    Varint.ReadTerminated([0x01], Letters(30));
    assert s[1..] == [0x01] + Letters(30);
    assert Varint.GroupSum([0x01]) == 1;
  }

  /** Every sample is accepted. */
  lemma SampleIsAccepted(o: Oracle, s: seq<byte>)
    requires IsSample(o, s)
    ensures |s| == 32 && o.verify(s) && IsBuiltin(o)
  {
    if o == Utf8Oracle() || o == JsonOracle() {
      AsciiIsPrintable(s);
    } else if o == Utf16LeOracle() {
      AlternatingIsText();
    } else if o == ProtobufOracle() {
      ProtobufSample();
    }
  }

  lemma GarbageDoesNotDecode(w: seq<byte>)
    requires w != [] && w[0] == 0xFF
    ensures Utf8.Decode(w).None?
  {
    assert DigitsOf(w)[0] == w[0] as nat == 0xFF;
    assert Utf8.SequenceLength(DigitsOf(w)) == 0;
  }

  lemma {:induction false} HighUnits(ds: seq<nat>)
    requires |ds| % 2 == 0 && forall i :: 0 <= i < |ds| ==> 0x10 <= ds[i]
    ensures CountAscii(UnitsOf(ds)) == 0 && |UnitsOf(ds)| * 2 == |ds|
  {
    if ds != [] {
      HighUnits(ds[2..]);
    }
  }

  /** A block without ASCII units, the last one not zero. */
  ghost predicate IsHigh(s: seq<byte>) {
    |s| == 16 && CountAscii(Units(s)) == 0 && |Units(s)| == 8 && WithoutTrailingUnits(s) == s
  }

  lemma HighBlock(s: seq<byte>, b: byte)
    requires s == Padding.Repeat(b, 16) && b >= 0x10
    ensures IsHigh(s)
  {
    HighUnits(DigitsOf(s));
  }

  lemma MostlyAsciiCount(us: seq<nat>, vs: seq<nat>, ws: seq<nat>)
    ensures MostlyAscii(us + vs + ws) <==>
      (CountAscii(us) + CountAscii(vs) + CountAscii(ws)) * 4 >= (|us| + |vs| + |ws|) * 3
  {
    CountAsciiAppend(us + vs, ws);
    CountAsciiAppend(us, vs);
  }

  /** Sixteen units of text are too few before eight others. */
  lemma HighBehind(r: seq<byte>, s: seq<byte>, t: seq<byte>)
    requires Utf16LeVerify(s) && |Units(s)| == 16 && IsHigh(t)
    requires r == [] || IsHigh(r)
    ensures !Utf16LeVerify(r + s + t)
  {
    Utf16LeVerdictAround(r, s, t);
    assert Units([]) == [];
    MostlyAsciiCount(Units(r), Units(s), Units(t));
  }

  lemma GarbageBehind(o: Oracle, s: seq<byte>, t: seq<byte>)
    requires (o == Utf8Oracle() || o == JsonOracle()) && o.verify(s) && t == Padding.Repeat(0xFF, 16)
    ensures !o.verify(s + t)
  {
    BuiltinVerdictExtendsIff(o, s, t);
    GarbageDoesNotDecode(t);
    assert Padding.WithoutZeros(t) == t;
  }

  lemma GarbageBehindUtf16Le(s: seq<byte>, t: seq<byte>)
    requires Utf16LeVerify(s) && |Units(s)| == 16 && t == Padding.Repeat(0xFF, 16)
    ensures !Utf16LeVerify(s + t)
  {
    HighBlock(t, 0xFF);
    HighBehind([], s, t);
    assert [] + s + t == s + t;
  }

  /** Behind the samples of utf8, json and utf16le, garbage revokes the verdict. */
  lemma RestRevokes(o: Oracle, s: seq<byte>)
    requires IsSample(o, s) && (o == Utf8Oracle() || o == JsonOracle() || o == Utf16LeOracle())
    ensures !o.verify(s + GARBAGE)
  {
    SampleIsAccepted(o, s);
    if o == Utf16LeOracle() {
      AlternatingIsText();
      GarbageBehindUtf16Le(s, GARBAGE);
    } else {
      GarbageBehind(o, s, GARBAGE);
    }
  }

  lemma StartsWithGarbage(o: Oracle, s: seq<byte>, w: seq<byte>)
    requires IsSample(o, s) && o != Utf16LeOracle() && w != [] && w[0] == 0xFF
    ensures !o.verify(w)
  {
    if o == Utf8Oracle() && Utf8Verify(w) {
      ZerosDecode(w);
      GarbageDoesNotDecode(w);
    }
  }

  lemma {:induction false} UnitsLength(ds: seq<nat>)
    ensures |UnitsOf(ds)| == |ds| / 2
  {
    if |ds| >= 2 {
      UnitsLength(ds[2..]);
    }
  }

  lemma {:induction false} TrailingUnitsShorten(t: seq<byte>)
    ensures |WithoutTrailingUnits(t)| <= |t|
  {
    if |t| >= 2 && t[|t| - 2] == 0 && t[|t| - 1] == 0 {
      TrailingUnitsShorten(t[..|t| - 2]);
    }
  }

  /** No block behind a block of garbage makes it UTF-16LE text. */
  lemma GarbageIsNotUtf16Le(block: seq<byte>, w: seq<byte>)
    requires block == Padding.Repeat(0xFF, 16) && |w| == 16
    ensures !Utf16LeVerify(block + w)
  {
    var rest := WithoutTrailingUnits(w);
    HighBlock(block, 0xFF);
    ZeroUnitsAppend(block, w);
    TrailingUnitsShorten(w);
    TrailingUnitsKeepParity(w);
    assert WithoutZeroUnits(block) == block;
    UnitsAppend(block, rest);
    UnitsLength(DigitsOf(rest));
    CountAsciiAppend(Units(block), Units(rest));
    assert WithoutZeroUnits(block + w) == block + rest;
  }

  /** In front of any sample, garbage revokes the verdict, and no block behind it makes it acceptable. */
  lemma FrontRevokes(o: Oracle, s: seq<byte>, w: seq<byte>)
    requires IsSample(o, s) && |w| == 16
    ensures !o.verify(GARBAGE + w) && !o.verify(GARBAGE + s + PAD_BLOCK)
  {
    if o == Utf16LeOracle() {
      GarbageIsNotUtf16Le(GARBAGE, w);
      AlternatingIsText();
      HighBlock(GARBAGE, 0xFF);
      HighBlock(PAD_BLOCK, 0x10);
      HighBehind(GARBAGE, s, PAD_BLOCK);
    } else {
      StartsWithGarbage(o, s, GARBAGE + w);
      StartsWithGarbage(o, s, GARBAGE + s + PAD_BLOCK);
    }
  }
}
