/** Plaintext oracles, and the choice of the best match among them. */
module Oracles {
  import opened Bytes
  import opened Results
  import Padding
  import Utf8
  import Varint

  datatype Confidence = Low | Medium | High {
    function Rank(): nat {
      match this
      case Low => 0
      case Medium => 1
      case High => 2
    }
  }

  datatype Oracle = Oracle(name: string, verify: seq<byte> -> bool, confidence: Confidence)

  datatype Match = Match(name: string, confidence: Confidence)

  // ----------------------------------------------------------- best match

  /** `filter(verify).max_by_key(rank)`: the last of the maximal ones. */
  function BestMatch(oracles: seq<Oracle>, head: seq<byte>): Option<Match> {
    if oracles == [] then None
    else
      var last := oracles[|oracles| - 1];
      var before := BestMatch(oracles[..|oracles| - 1], head);
      if last.verify(head) && (before.None? || before.value.confidence.Rank() <= last.confidence.Rank())
      then Some(Match(last.name, last.confidence))
      else before
  }

  /** Oracle i verifies, none ranks higher, and none after it ranks as high. */
  ghost predicate IsBest(oracles: seq<Oracle>, head: seq<byte>, i: nat) {
    && i < |oracles|
    && oracles[i].verify(head)
    && forall j :: 0 <= j < |oracles| && oracles[j].verify(head) ==>
         && oracles[j].confidence.Rank() <= oracles[i].confidence.Rank()
         && (i < j ==> oracles[j].confidence.Rank() < oracles[i].confidence.Rank())
  }

  /** None iff no oracle verifies; otherwise the oracle that `IsBest`. */
  lemma {:induction false} BestMatchIsBest(oracles: seq<Oracle>, head: seq<byte>)
    ensures match BestMatch(oracles, head)
            case None => forall i :: 0 <= i < |oracles| ==> !oracles[i].verify(head)
            case Some(m) =>
              exists i: nat :: IsBest(oracles, head, i) && m == Match(oracles[i].name, oracles[i].confidence)
    decreases |oracles|
  {
    if oracles != [] {
      var n := |oracles| - 1;
      var init, last := oracles[..n], oracles[n];
      BestMatchIsBest(init, head);
      var before := BestMatch(init, head);
      assert forall i :: 0 <= i < n ==> init[i] == oracles[i];
      if last.verify(head) && (before.None? || before.value.confidence.Rank() <= last.confidence.Rank()) {
        if before.Some? {
          var best: nat :| IsBest(init, head, best)
                           && before.value == Match(init[best].name, init[best].confidence);
          assert forall j :: 0 <= j < n && oracles[j].verify(head) ==> init[j].verify(head);
        }
        assert IsBest(oracles, head, n);
      } else if before.Some? {
        var best: nat :| IsBest(init, head, best)
                         && before.value == Match(init[best].name, init[best].confidence);
        assert forall j :: 0 <= j < n && oracles[j].verify(head) ==> init[j].verify(head);
        assert IsBest(oracles, head, best);
      }
    }
  }

  /** The index of the best oracle is unique. */
  lemma IsBestUnique(oracles: seq<Oracle>, head: seq<byte>, i: nat, j: nat)
    requires IsBest(oracles, head, i) && IsBest(oracles, head, j)
    ensures i == j
  {}

  lemma BestOfOne(o: Oracle, head: seq<byte>)
    ensures BestMatch([o], head) == if o.verify(head) then Some(Match(o.name, o.confidence)) else None
    ensures o.verify(head) ==> IsBest([o], head, 0)
  {
    assert BestMatch([o][..0], head) == None;
  }

  // -------------------------------------------------------------- oracles

  function Utf8Oracle(): Oracle {
    Oracle("utf8", Utf8Verify, Medium)
  }

  function JsonOracle(): Oracle {
    Oracle("json", JsonVerify, High)
  }

  function KnownOracle(fragment: seq<byte>): Oracle {
    Oracle("known", s => KnownVerify(fragment, s), High)
  }

  function Utf16LeOracle(): Oracle {
    Oracle("utf16le", Utf16LeVerify, Medium)
  }

  function GzipOracle(): Oracle {
    Oracle("gzip", GzipVerify, High)
  }

  function ProtobufOracle(): Oracle {
    Oracle("protobuf", ProtobufVerify, Medium)
  }

  predicate Utf8Verify(s: seq<byte>) {
    var head := Padding.WithoutZeros(s);
    head != [] && Utf8.MostlyPrintable(head)
  }

  /** `{"`, or `[` and the start of a value. */
  predicate StartsJson(s: seq<byte>) {
    && |s| >= 2
    && (|| (s[0] == 0x7B && s[1] == 0x22)
        || (s[0] == 0x5B && (0x30 <= s[1] <= 0x39 || s[1] in {0x22, 0x5B, 0x7B, 0x20, 0x09})))
  }

  predicate JsonVerify(s: seq<byte>) {
    StartsJson(s) && Utf8.AllPrintable(s)
  }

  /** `windows(max(1, |fragment|))` never yields an empty window, so an empty fragment matches nothing. */
  predicate KnownVerify(fragment: seq<byte>, s: seq<byte>) {
    && fragment != []
    && exists i {:trigger s[i..]} :: 0 <= i <= |s| - |fragment| && s[i..][..|fragment|] == fragment
  }

  predicate GzipVerify(s: seq<byte>) {
    |s| >= 4 && s[0] == 0x1f && s[1] == 0x8b && s[2] == 0x08 && s[3] & 0xe0 == 0
  }

  /** A length-delimited field with a number from 1 to 15, whose bytes fit in a text of `total` bytes. */
  predicate StartsField(s: seq<byte>, total: nat) {
    && s != []
    && s[0] & 0x07 == 0x02 && 1 <= s[0] >> 3 <= 15
    && match Varint.Read(s[1..])
       case None => false
       case Some((len, consumed)) => 0 < len <= total - (1 + consumed)
  }

  predicate ProtobufVerify(s: seq<byte>) {
    StartsField(s, |s|)
  }

  // ----------------------------------------------------------- UTF-16LE

  function WithoutZeroUnits(s: seq<byte>): seq<byte> {
    if |s| >= 4 && s[|s| - 2] == 0 && s[|s| - 1] == 0 then WithoutZeroUnits(s[..|s| - 2]) else s
  }

  function Units(s: seq<byte>): seq<nat> {
    UnitsOf(DigitsOf(s))
  }

  function UnitsOf(ds: seq<nat>): seq<nat> {
    if |ds| < 2 then [] else [ds[0] + 256 * ds[1]] + UnitsOf(ds[2..])
  }

  function CountAscii(us: seq<nat>): (n: nat)
    ensures n <= |us|
  {
    if us == [] then 0 else (if 0x20 <= us[0] < 0x7f then 1 else 0) + CountAscii(us[1..])
  }

  /** Units that are not all zero, nor all the same. */
  predicate Varied(us: seq<nat>) {
    && (exists i :: 0 <= i < |us| && us[i] != 0)
    && (exists i :: 0 <= i < |us| && us[i] != us[0])
  }

  /** Three units in four are printable ASCII. */
  predicate AreText(us: seq<nat>) {
    CountAscii(us) * 4 >= |us| * 3 && Varied(us)
  }

  /** What is asked of a text without trailing zero units. */
  predicate Utf16LeText(head: seq<byte>) {
    |head| >= 8 && |head| % 2 == 0 && AreText(Units(head))
  }

  predicate Utf16LeVerify(s: seq<byte>) {
    Utf16LeText(WithoutZeroUnits(s))
  }

  // ------------------------------------------------------ in-place stripping

  /** `strip_trailing_zeros`. */
  method StripTrailingZeros(data: seq<byte>) returns (head: seq<byte>)
    ensures head == Padding.WithoutZeros(data)
  {
    var end := |data|;
    assert data[..end] == data;
    while end > 0 && data[end - 1] == 0
      invariant 0 <= end <= |data|
      invariant Padding.WithoutZeros(data[..end]) == Padding.WithoutZeros(data)
    {
      assert data[..end][..end - 1] == data[..end - 1];
      end := end - 1;
    }
    return data[..end];
  }

  /** The unit-stripping loop of the UTF-16LE oracle. */
  method StripZeroUnits(data: seq<byte>) returns (head: seq<byte>)
    ensures head == WithoutZeroUnits(data)
  {
    var end := |data|;
    assert data[..end] == data;
    while end >= 4 && data[end - 2] == 0 && data[end - 1] == 0
      invariant 0 <= end <= |data|
      invariant WithoutZeroUnits(data[..end]) == WithoutZeroUnits(data)
    {
      assert data[..end][..end - 2] == data[..end - 2];
      end := end - 2;
    }
    return data[..end];
  }

  // ----------------------------------------- the oracles in other words

  /** High confidence beats medium, medium beats low. */
  lemma RankOrder(a: Confidence, b: Confidence)
    ensures a.Rank() < b.Rank() <==> (a == Low && b != Low) || (a != High && b == High)
  {}

  /** Where both accept, json, gzip or known is named before utf8, utf16le or protobuf, whichever is asked first. */
  lemma StructureBeatsText(a: Oracle, b: Oracle, s: seq<byte>, fragment: seq<byte>)
    requires a in {JsonOracle(), GzipOracle(), KnownOracle(fragment)}
    requires b in {Utf8Oracle(), Utf16LeOracle(), ProtobufOracle()}
    requires a.verify(s) && b.verify(s)
    ensures BestMatch([a, b], s) == Some(Match(a.name, High)) == BestMatch([b, a], s)
  {
    assert [a, b][..1] == [a] && [b, a][..1] == [b];
    BestOfOne(a, s);
    BestOfOne(b, s);
  }

  /** Known: the text contains the fragment, somewhere. */
  lemma KnownIff(fragment: seq<byte>, s: seq<byte>)
    ensures KnownVerify(fragment, s) <==> fragment != [] && exists a, b :: s == a + fragment + b
  {
    if KnownVerify(fragment, s) {
      var i :| 0 <= i <= |s| - |fragment| && s[i..][..|fragment|] == fragment;
      assert s == s[..i] + fragment + s[i + |fragment|..];
    }
    if fragment != [] {
      forall a, b | s == a + fragment + b
        ensures KnownVerify(fragment, s)
      {
        assert s[|a|..][..|fragment|] == fragment;
      }
    }
  }

  /** Gzip: the magic number, the deflate method, and no reserved flag. */
  lemma GzipIff(s: seq<byte>)
    ensures GzipVerify(s) <==> |s| >= 4 && s[..3] == [0x1f, 0x8b, 8] && s[3] as nat < 32
  {
    if |s| >= 4 {
      FlagsAreSmall(s[3]);
    }
  }

  lemma FlagsAreSmall(b: byte)
    ensures b & 0xe0 == 0 <==> (b as nat) < 32
  {}

  function Char(b: byte): char {
    b as nat as char
  }

  /** Json starts: an object with its first key, or an array with a number, a string, a nested one, or a blank. */
  lemma StartsJsonIff(s: seq<byte>)
    ensures StartsJson(s) <==>
      && |s| >= 2
      && ((Char(s[0]) == '{' && Char(s[1]) == '"') || (Char(s[0]) == '[' && Char(s[1]) in "0123456789\"[{ \t"))
  {
    if |s| >= 2 {
      ByteOfChar(s[0], 0x7B);
      ByteOfChar(s[0], 0x5B);
      ArrayStart(s[1]);
      ByteOfChar(s[1], 0x22);
    }
  }

  lemma ByteOfChar(b: byte, c: byte)
    ensures Char(b) == Char(c) <==> b == c
  {
    NatOfByte(b);
    NatOfByte(c);
  }

  lemma ArrayStart(b: byte)
    ensures (0x30 <= b <= 0x39 || b in {0x22, 0x5B, 0x7B, 0x20, 0x09}) <==> Char(b) in "0123456789\"[{ \t"
  {
    DigitChar(b);
    ByteOfChar(b, 0x22);
    ByteOfChar(b, 0x5B);
    ByteOfChar(b, 0x7B);
    ByteOfChar(b, 0x20);
    ByteOfChar(b, 0x09);
  }

  lemma DigitChar(b: byte)
    ensures 0x30 <= b <= 0x39 <==> '0' <= Char(b) <= '9'
  {}

  /** The tag of field f with a length-delimited value. */
  lemma TagIff(b: byte, f: nat)
    ensures b & 0x07 == 0x02 && (b >> 3) as nat == f <==> b as nat == 8 * f + 2
  {
    TagBits(b);
  }

  lemma TagBits(b: byte)
    ensures (b & 0x07) as nat == b as nat % 8 && (b >> 3) as nat == b as nat / 8
  {}

  /**
   * Protobuf: a tag for one of the fields 1 to 15, a varint v that reads as a positive length, and
   * at least that many bytes behind it.
   */
  lemma ProtobufIff(s: seq<byte>)
    ensures ProtobufVerify(s) <==>
      && s != [] && (exists f :: 1 <= f <= 15 && s[0] as nat == 8 * f + 2)
      && Varint.Read(s[1..]).Some?
      && var (len, consumed) := Varint.Read(s[1..]).value; 0 < len && 1 + consumed + len <= |s|
  {
    if s != [] {
      TagIff(s[0], (s[0] >> 3) as nat);
      forall f | 1 <= f <= 15
        ensures s[0] & 0x07 == 0x02 && (s[0] >> 3) as nat == f <==> s[0] as nat == 8 * f + 2
      {
        TagIff(s[0], f);
      }
    }
  }

  lemma FieldIsAccepted(tag: byte, f: nat, tail: seq<byte>, len: nat, consumed: nat)
    requires 1 <= f <= 15 && tag as nat == 8 * f + 2
    requires Varint.Read(tail) == Some((len, consumed)) && 0 < len && consumed + len <= |tail|
    ensures ProtobufVerify([tag] + tail)
  {
    TagIff(tag, f);
    assert ([tag] + tail)[1..] == tail;
  }

  /** Every non-empty value of a field from 1 to 15, encoded with its length, is accepted, whatever follows. */
  lemma EncodedFieldIsAccepted(tag: byte, f: nat, value: seq<byte>, rest: seq<byte>)
    requires 1 <= f <= 15 && tag as nat == 8 * f + 2 && 0 < |value| < U64
    ensures ProtobufVerify([tag] + (Varint.Encode(|value|) + (value + rest)))
  {
    Varint.ReadInvertsEncode(|value|, value + rest);
    FieldIsAccepted(tag, f, Varint.Encode(|value|) + (value + rest), |value|, |Varint.Encode(|value|)|);
  }

  // ----------------------------------------------------- padding tolerance

  lemma {:induction false} Utf8IgnoresZeros(s: seq<byte>, n: nat)
    ensures Utf8Verify(s + Padding.Repeat(0, n)) == Utf8Verify(s)
  {
    if n == 0 {
      assert s + Padding.Repeat(0, n) == s;
    } else {
      Utf8IgnoresZeros(s, n - 1);
      var t := s + Padding.Repeat(0, n);
      assert t[..|t| - 1] == s + Padding.Repeat(0, n - 1);
    }
  }

  lemma {:induction false} Utf16LeIgnoresZeroUnits(s: seq<byte>, n: nat)
    ensures Utf16LeVerify(s + Padding.Repeat(0, 2 * n)) == Utf16LeVerify(s)
  {
    if n == 0 {
      assert s + Padding.Repeat(0, 2 * n) == s;
    } else {
      Utf16LeIgnoresZeroUnits(s, n - 1);
      var t := s + Padding.Repeat(0, 2 * n);
      assert t[..|t| - 2] == s + Padding.Repeat(0, 2 * (n - 1));
    }
  }

  /** On every input the utf8 oracle is the 900-permille score of the zero-stripped text. */
  lemma Utf8OracleIsThreshold(s: seq<byte>)
    ensures Utf8Verify(s) <==> Utf8.Plausibility(Padding.WithoutZeros(s)) >= 900
  {
    Utf8.PlausibilityThreshold(Padding.WithoutZeros(s));
  }
}
