/** UTF-8 decoding (section 4 of RFC 3629) and the printable-character scores built on it. */
module Utf8 {
  import opened Bytes
  import opened Results

  predicate IsTail(b: nat) {
    0x80 <= b <= 0xBF
  }

  /** Length of the well-formed sequence at the start of `s`, 0 if there is none. */
  function SequenceLength(s: seq<nat>): (n: nat)
    ensures n <= |s|
  {
    if s == [] then 0
    else if s[0] < 0x80 then 1
    else if |s| >= 2 && 0xC2 <= s[0] <= 0xDF && IsTail(s[1]) then 2
    else if |s| >= 3 && 0xE0 <= s[0] <= 0xEF && IsTail(s[1]) && IsTail(s[2])
            && (s[0] == 0xE0 ==> 0xA0 <= s[1]) && (s[0] == 0xED ==> s[1] <= 0x9F) then 3
    else if |s| >= 4 && 0xF0 <= s[0] <= 0xF4 && IsTail(s[1]) && IsTail(s[2]) && IsTail(s[3])
            && (s[0] == 0xF0 ==> 0x90 <= s[1]) && (s[0] == 0xF4 ==> s[1] <= 0x8F) then 4
    else 0
  }

  /** The code point of the well-formed sequence at the start of `s`. */
  function CodePoint(s: seq<nat>): nat
    requires SequenceLength(s) != 0
  {
    match SequenceLength(s)
    case 1 => s[0]
    case 2 => (s[0] - 0xC0) * 0x40 + (s[1] - 0x80)
    case 3 => ((s[0] - 0xE0) * 0x40 + (s[1] - 0x80)) * 0x40 + (s[2] - 0x80)
    case _ => (((s[0] - 0xF0) * 0x40 + (s[1] - 0x80)) * 0x40 + (s[2] - 0x80)) * 0x40 + (s[3] - 0x80)
  }

  function DecodeNats(s: seq<nat>): Option<seq<nat>> {
    if s == [] then Some([])
    else if SequenceLength(s) == 0 then None
    else
      match DecodeNats(s[SequenceLength(s)..])
      case None => None
      case Some(rest) => Some([CodePoint(s)] + rest)
  }

  /** `std::str::from_utf8`: the code points, or None. */
  function Decode(s: seq<byte>): Option<seq<nat>> {
    DecodeNats(DigitsOf(s))
  }

  // ------------------------------------------------- the encoder of RFC 3629

  /** Every code point but the surrogates. */
  predicate IsScalar(c: nat) {
    c < 0xD800 || 0xE000 <= c <= 0x10FFFF
  }

  function EncodeOne(c: nat): (s: seq<nat>)
    ensures s != []
  {
    var c1 := c / 0x40;
    var c2 := c1 / 0x40;
    if c < 0x80 then [c]
    else if c < 0x800 then [0xC0 + c1, 0x80 + c % 0x40]
    else if c < 0x1_0000 then [0xE0 + c2, 0x80 + c1 % 0x40, 0x80 + c % 0x40]
    else [0xF0 + c2 / 0x40, 0x80 + c2 % 0x40, 0x80 + c1 % 0x40, 0x80 + c % 0x40]
  }

  function Encode(cs: seq<nat>): seq<nat> {
    if cs == [] then [] else EncodeOne(cs[0]) + Encode(cs[1..])
  }

  ghost predicate AreScalars(cs: seq<nat>) {
    forall i :: 0 <= i < |cs| ==> IsScalar(cs[i])
  }

  lemma EncodedIsWellFormed(c: nat, rest: seq<nat>)
    requires IsScalar(c)
    ensures SequenceLength(EncodeOne(c) + rest) == |EncodeOne(c)|
    ensures CodePoint(EncodeOne(c) + rest) == c
  {
    var c1 := c / 0x40;
    var c2 := c1 / 0x40;
    var c3, s := c2 / 0x40, EncodeOne(c) + rest;
    assert c == c1 * 0x40 + c % 0x40 && c1 == c2 * 0x40 + c1 % 0x40 && c2 == c3 * 0x40 + c2 % 0x40;
    if c < 0x80 {
    } else if c < 0x800 {
      assert 2 <= c1 < 0x20 && s[0] == 0xC0 + c1 && s[1] == 0x80 + c % 0x40;
    } else if c < 0x1_0000 {
      assert c2 < 0x10 && s[0] == 0xE0 + c2 && s[1] == 0x80 + c1 % 0x40 && s[2] == 0x80 + c % 0x40;
    } else {
      assert c3 <= 4 && s[0] == 0xF0 + c3 && s[1] == 0x80 + c2 % 0x40;
      assert s[2] == 0x80 + c1 % 0x40 && s[3] == 0x80 + c % 0x40;
    }
  }

  lemma Split64(v: nat, hi: nat, lo: nat)
    requires v == hi * 0x40 + lo && lo < 0x40
    ensures v / 0x40 == hi && v % 0x40 == lo
  {}

  /** A well-formed sequence is the encoding of its code point: overlong forms and surrogates are rejected. */
  lemma WellFormedIsEncoded(s: seq<nat>)
    requires SequenceLength(s) != 0
    ensures IsScalar(CodePoint(s))
    ensures EncodeOne(CodePoint(s)) == s[..SequenceLength(s)]
  {
    var c, n := CodePoint(s), SequenceLength(s);
    if n == 2 {
      Split64(c, s[0] - 0xC0, s[1] - 0x80);
    } else if n == 3 {
      var c1 := (s[0] - 0xE0) * 0x40 + (s[1] - 0x80);
      Split64(c1, s[0] - 0xE0, s[1] - 0x80);
      Split64(c, c1, s[2] - 0x80);
    } else if n == 4 {
      var c2 := (s[0] - 0xF0) * 0x40 + (s[1] - 0x80);
      var c1 := c2 * 0x40 + (s[2] - 0x80);
      Split64(c2, s[0] - 0xF0, s[1] - 0x80);
      Split64(c1, c2, s[2] - 0x80);
      Split64(c, c1, s[3] - 0x80);
    }
  }

  lemma {:induction false} DecodeInvertsEncode(cs: seq<nat>)
    requires AreScalars(cs)
    ensures DecodeNats(Encode(cs)) == Some(cs)
  {
    if cs != [] {
      DecodeInvertsEncode(cs[1..]);
      var s, n := Encode(cs), |EncodeOne(cs[0])|;
      EncodedIsWellFormed(cs[0], Encode(cs[1..]));
      assert s[n..] == Encode(cs[1..]);
      assert [cs[0]] + cs[1..] == cs;
    }
  }

  lemma EncodePrepend(s: seq<nat>, n: nat, c: nat, cs: seq<nat>)
    requires n <= |s| && IsScalar(c) && AreScalars(cs)
    requires EncodeOne(c) == s[..n] && Encode(cs) == s[n..]
    ensures AreScalars([c] + cs) && Encode([c] + cs) == s
  {
    assert ([c] + cs)[1..] == cs;
    assert s == s[..n] + s[n..];
  }

  lemma {:induction false} EncodeInvertsDecode(s: seq<nat>)
    requires DecodeNats(s).Some?
    ensures AreScalars(DecodeNats(s).value)
    ensures Encode(DecodeNats(s).value) == s
    decreases |s|
  {
    if s != [] {
      var n := SequenceLength(s);
      EncodeInvertsDecode(s[n..]);
      WellFormedIsEncoded(s);
      EncodePrepend(s, n, CodePoint(s), DecodeNats(s[n..]).value);
    }
  }

  /** A byte string decodes to cs iff it is the RFC 3629 encoding of cs, all of them scalar values. */
  lemma DecodeIsExact(s: seq<byte>, cs: seq<nat>)
    ensures Decode(s) == Some(cs) <==> AreScalars(cs) && DigitsOf(s) == Encode(cs)
  {
    if Decode(s) == Some(cs) {
      EncodeInvertsDecode(DigitsOf(s));
    }
    if AreScalars(cs) && DigitsOf(s) == Encode(cs) {
      DecodeInvertsEncode(cs);
    }
  }

  // ------------------------------------------------------------ concatenation

  /** A well-formed first sequence does not depend on what follows it. */
  lemma SequenceExtends(a: seq<nat>, b: seq<nat>)
    requires SequenceLength(a) != 0
    ensures SequenceLength(a + b) == SequenceLength(a) && CodePoint(a + b) == CodePoint(a)
  {}

  function Prepend(x: seq<nat>, rest: Option<seq<nat>>): Option<seq<nat>> {
    if rest.None? then None else Some(x + rest.value)
  }

  lemma PrependTwice(x: seq<nat>, y: seq<nat>, rest: Option<seq<nat>>)
    ensures Prepend(x, Prepend(y, rest)) == Prepend(x + y, rest)
    ensures Prepend([], rest) == rest
  {
    if rest.Some? {
      assert [] + rest.value == rest.value;
      assert x + (y + rest.value) == (x + y) + rest.value;
    }
  }

  lemma DecodeFirst(s: seq<nat>)
    requires SequenceLength(s) != 0
    ensures DecodeNats(s) == Prepend([CodePoint(s)], DecodeNats(s[SequenceLength(s)..]))
  {}

  lemma DropInside(a: seq<nat>, b: seq<nat>, n: nat)
    requires n <= |a|
    ensures (a + b)[n..] == a[n..] + b
  {}

  /** Text after a well-formed one is decoded on its own. */
  lemma {:induction false} DecodeAppend(a: seq<nat>, b: seq<nat>)
    requires DecodeNats(a).Some?
    ensures DecodeNats(a + b) == Prepend(DecodeNats(a).value, DecodeNats(b))
    decreases |a|
  {
    if a == [] {
      assert a + b == b;
      PrependTwice([], [], DecodeNats(b));
    } else {
      var n, c := SequenceLength(a), CodePoint(a);
      SequenceExtends(a, b);
      DecodeFirst(a);
      DecodeFirst(a + b);
      DropInside(a, b, n);
      DecodeAppend(a[n..], b);
      PrependTwice([c], DecodeNats(a[n..]).value, DecodeNats(b));
    }
  }

  /** Every byte of a sequence but the first is a continuation byte, so none reaches past a byte that is not. */
  lemma SequenceStops(a: seq<nat>, b: seq<nat>)
    requires a != [] && SequenceLength(a + b) != 0 && (b == [] || !IsTail(b[0]))
    ensures SequenceLength(a) == SequenceLength(a + b)
  {
    var n := SequenceLength(a + b);
    if n > |a| {
      assert (a + b)[|a|] == b[0];
    }
  }

  /** Text before a byte that starts a sequence must be well-formed on its own. */
  lemma {:induction false} DecodeBefore(a: seq<nat>, b: seq<nat>)
    requires DecodeNats(a + b).Some? && (b == [] || !IsTail(b[0]))
    ensures DecodeNats(a).Some?
    decreases |a|
  {
    if a != [] {
      var n := SequenceLength(a + b);
      SequenceStops(a, b);
      assert (a + b)[n..] == a[n..] + b;
      DecodeBefore(a[n..], b);
    }
  }

  /** Text of single-byte characters decodes to itself. */
  lemma {:induction false} AsciiDecodes(s: seq<nat>)
    requires forall i :: 0 <= i < |s| ==> s[i] < 0x80
    ensures DecodeNats(s) == Some(s)
  {
    if s != [] {
      AsciiDecodes(s[1..]);
      assert s == [s[0]] + s[1..];
    }
  }

  // ----------------------------------------------------- printable characters

  /** General category Cc. */
  predicate IsControl(c: nat) {
    c <= 0x1F || 0x7F <= c <= 0x9F
  }

  predicate IsPrintable(c: nat) {
    !IsControl(c) || c == 0x0A || c == 0x0D || c == 0x09
  }

  function CountPrintable(cs: seq<nat>): (n: nat)
    ensures n <= |cs|
  {
    if cs == [] then 0 else (if IsPrintable(cs[0]) then 1 else 0) + CountPrintable(cs[1..])
  }

  lemma {:induction false} CountAppend(a: seq<nat>, b: seq<nat>)
    ensures CountPrintable(a + b) == CountPrintable(a) + CountPrintable(b)
  {
    if a == [] {
      assert a + b == b;
    } else {
      CountAppend(a[1..], b);
      assert (a + b)[1..] == a[1..] + b;
    }
  }

  lemma {:induction false} CountAll(cs: seq<nat>)
    requires forall i :: 0 <= i < |cs| ==> IsPrintable(cs[i])
    ensures CountPrintable(cs) == |cs|
  {
    if cs != [] {
      CountAll(cs[1..]);
    }
  }

  /** Nine characters in ten are printable. */
  predicate MostlyPrintable(s: seq<byte>) {
    match Decode(s)
    case None => false
    case Some(cs) => CountPrintable(cs) * 10 >= |cs| * 9
  }

  /** The share of printable characters in permille, rounded down. */
  function Plausibility(s: seq<byte>): nat {
    match Decode(s)
    case None => 0
    case Some(cs) => if cs == [] then 0 else CountPrintable(cs) * 1000 / |cs|
  }

  lemma ThresholdDespiteRounding(p: nat, n: nat)
    requires 0 < n
    ensures p * 10 >= n * 9 <==> p * 1000 / n >= 900
  {
    var q := p * 1000 / n;
    assert p * 1000 == q * n + p * 1000 % n;
    if q >= 900 {
      MulMonotone(900, q, n);
    } else {
      MulMonotone(q + 1, 900, n);
      assert (q + 1) * n == q * n + n;
    }
  }

  lemma MulMonotone(a: nat, b: nat, n: nat)
    requires a <= b
    ensures a * n <= b * n
  {
    assert (b - a) * n >= 0;
  }

  /** The characters counted are those at the printable positions. */
  lemma {:induction false} CountIsCardinality(cs: seq<nat>)
    ensures CountPrintable(cs) == |set i | 0 <= i < |cs| && IsPrintable(cs[i])|
    decreases |cs|
  {
    var at := set i | 0 <= i < |cs| && IsPrintable(cs[i]);
    if cs != [] {
      var n := |cs| - 1;
      var before := set i | 0 <= i < n && IsPrintable(cs[..n][i]);
      CountIsCardinality(cs[..n]);
      CountAppend(cs[..n], [cs[n]]);
      assert cs == cs[..n] + [cs[n]];
      assert at == before + if IsPrintable(cs[n]) then {n} else {};
    }
  }

  /** The printable ones of the ASCII and Latin-1 characters: no control but tab, line feed and carriage return. */
  lemma PrintableRanges(c: nat)
    ensures c < 0x20 ==> (IsPrintable(c) <==> c as char in "\t\n\r")
    ensures 0x20 <= c <= 0x7E ==> IsPrintable(c)
    ensures 0x7F <= c <= 0x9F ==> !IsPrintable(c)
    ensures 0xA0 <= c ==> IsPrintable(c)
  {}

  /** The score is exactly the share of printable characters in permille, rounded down; 0 without a character. */
  lemma PlausibilityIsExact(s: seq<byte>)
    ensures match Decode(s)
            case None => Plausibility(s) == 0
            case Some(cs) =>
              var p, n, score := CountPrintable(cs), |cs|, Plausibility(s);
              if n == 0 then score == 0 else score * n <= 1000 * p < (score + 1) * n
  {
    if Decode(s).Some? && Decode(s).value != [] {
      var p, n := CountPrintable(Decode(s).value), |Decode(s).value|;
      var q := p * 1000 / n;
      assert p * 1000 == q * n + p * 1000 % n;
      assert (q + 1) * n == q * n + n;
    }
  }

  /** The score is a permille, and it reaches 900 exactly where the utf8 test passes. */
  lemma PlausibilityThreshold(s: seq<byte>)
    ensures Plausibility(s) <= 1000
    ensures Plausibility(s) >= 900 <==> s != [] && MostlyPrintable(s)
  {
    match Decode(s)
    case None =>
    case Some(cs) =>
      if cs != [] {
        var p := CountPrintable(cs);
        ThresholdDespiteRounding(p, |cs|);
        assert p * 1000 <= 1000 * |cs|;
        if p * 1000 / |cs| > 1000 {
          MulMonotone(1001, p * 1000 / |cs|, |cs|);
        }
      }
  }

  /**
   * Three texts in a row are mostly printable iff each decodes and nine in ten of all their
   * characters are printable.
   */
  ghost predicate MostlyPrintableTogether(a: seq<byte>, b: seq<byte>, c: seq<byte>) {
    match (Decode(a), Decode(b), Decode(c))
    case (Some(x), Some(y), Some(z)) =>
      (CountPrintable(x) + CountPrintable(y) + CountPrintable(z)) * 10 >= (|x| + |y| + |z|) * 9
    case _ => false
  }

  lemma DigitsAppend(a: seq<byte>, b: seq<byte>)
    ensures DigitsOf(a + b) == DigitsOf(a) + DigitsOf(b)
  {}

  /** Around a well-formed text: no character can straddle its ends. */
  lemma DecodeParts(a: seq<byte>, b: seq<byte>, c: seq<byte>)
    requires Decode(b).Some? && b != []
    ensures Decode(a + b + c).Some? <==> Decode(a).Some? && Decode(c).Some?
    ensures Decode(a + b + c).Some? ==>
      var all, x, y, z := Decode(a + b + c).value, Decode(a).value, Decode(b).value, Decode(c).value;
      && |all| == |x| + |y| + |z|
      && CountPrintable(all) == CountPrintable(x) + CountPrintable(y) + CountPrintable(z)
  {
    var x, y, z := DigitsOf(a), DigitsOf(b), DigitsOf(c);
    DigitsAppend(a + b, c);
    DigitsAppend(a, b);
    assert x + y + z == x + (y + z);
    DecodeAppend(y, z);
    if DecodeNats(x).Some? {
      DecodeAppend(x, y + z);
      if DecodeNats(z).Some? {
        CountAppend(DecodeNats(x).value, DecodeNats(y).value + DecodeNats(z).value);
        CountAppend(DecodeNats(y).value, DecodeNats(z).value);
      }
    } else if DecodeNats(x + (y + z)).Some? {
      DecodeBefore(x, y + z);
    }
  }

  /** It is enough that the middle one decodes. */
  lemma MostlyPrintableParts(a: seq<byte>, b: seq<byte>, c: seq<byte>)
    requires Decode(b).Some? && b != []
    ensures MostlyPrintable(a + b + c) <==> MostlyPrintableTogether(a, b, c)
  {
    DecodeParts(a, b, c);
  }

  /** Decodes to printable characters only. */
  predicate AllPrintable(s: seq<byte>) {
    match Decode(s)
    case None => false
    case Some(cs) => CountPrintable(cs) == |cs|
  }

  lemma AllPrintableParts(a: seq<byte>, b: seq<byte>, c: seq<byte>)
    requires Decode(b).Some? && b != []
    ensures AllPrintable(a + b + c) <==> AllPrintable(a) && AllPrintable(b) && AllPrintable(c)
  {
    DecodeParts(a, b, c);
  }

  // -------------------------------------------------- cutting a printable text

  /** The text is cut at n between two characters. */
  predicate CutsCleanly(s: seq<byte>, n: nat)
    requires n <= |s|
  {
    n == |s| || !(0x80 <= s[n] <= 0xBF)
  }

  lemma CleanCutIsStart(s: seq<byte>, n: nat)
    requires n < |s|
    ensures CutsCleanly(s, n) <==> !IsTail(DigitsOf(s)[n])
  {
    assert DigitsOf(s)[n] == s[n] as nat;
  }

  /** A part of a well-formed text that starts with a character is well-formed iff it ends with one. */
  lemma CutDecodes(s: seq<byte>, n: nat)
    requires n <= |s| && Decode(s).Some?
    ensures Decode(s[..n]).Some? <==> CutsCleanly(s, n)
    ensures CutsCleanly(s, n) ==> Decode(s[n..]).Some?
  {
    if n < |s| {
      CleanCutIsStart(s, n);
    }
    assert s == s[..n] + s[n..];
    DigitsAppend(s[..n], s[n..]);
    if CutsCleanly(s, n) {
      DecodeBefore(DigitsOf(s[..n]), DigitsOf(s[n..]));
    }
    if Decode(s[..n]).Some? {
      DecodeAppend(DigitsOf(s[..n]), DigitsOf(s[n..]));
    }
  }

  /** Cut between two characters, both parts of a printable text are printable. */
  lemma CutIsPrintable(s: seq<byte>, n: nat)
    requires n <= |s| && AllPrintable(s)
    ensures AllPrintable(s[..n]) <==> CutsCleanly(s, n)
    ensures CutsCleanly(s, n) ==> AllPrintable(s[n..])
  {
    CutDecodes(s, n);
    if CutsCleanly(s, n) {
      assert s == s[..n] + s[n..];
      DigitsAppend(s[..n], s[n..]);
      DecodeAppend(DigitsOf(s[..n]), DigitsOf(s[n..]));
      CountAppend(Decode(s[..n]).value, Decode(s[n..]).value);
    }
  }

  lemma ZeroIsNotPrintable(s: seq<byte>)
    requires s == [0]
    ensures !AllPrintable(s)
  {
    assert DigitsOf(s) == [0];
    AsciiDecodes([0]);
    assert CountPrintable([0]) == 0;
  }

  /** A printable text does not end in a zero byte. */
  lemma PrintableEnd(s: seq<byte>)
    requires AllPrintable(s) && s != []
    ensures s[|s| - 1] != 0
  {
    var n := |s| - 1;
    assert s[n..] == [s[n]];
    CutIsPrintable(s, n);
    if s[n] == 0 {
      ZeroIsNotPrintable(s[n..]);
    }
  }
}
