/**
 * What becomes of a verdict when the text it was given on turns out to be part of a longer
 * one: for each of the six built-in oracles, exactly when the longer text is accepted too.
 */
module Carrying {
  import opened Bytes
  import opened Oracles
  import Padding
  import Utf8
  import Varint

  // ------------------------------------------------- verdicts nothing revokes

  /** A verdict that more plaintext on the right cannot revoke. */
  ghost predicate RightStable(o: Oracle) {
    forall s, t :: o.verify(s) ==> o.verify(s + t)
  }

  /** A verdict that more plaintext on either side cannot revoke. */
  ghost predicate BothStable(o: Oracle) {
    forall r, s, t :: o.verify(s) ==> o.verify(r + s + t)
  }

  lemma BothStableIsRightStable(o: Oracle)
    requires BothStable(o)
    ensures RightStable(o)
  {
    forall s, t | o.verify(s)
      ensures o.verify(s + t)
    {
      assert o.verify([] + s + t);
      assert [] + s + t == s + t;
    }
  }

  lemma KnownIsBothStable(fragment: seq<byte>)
    ensures BothStable(KnownOracle(fragment))
  {
    forall r, s, t | KnownVerify(fragment, s)
      ensures KnownVerify(fragment, r + s + t)
    {
      var i :| 0 <= i <= |s| - |fragment| && s[i..][..|fragment|] == fragment;
      var j := |r| + i;
      assert (r + s + t)[j..][..|fragment|] == fragment;
    }
  }

  lemma GzipIsRightStable()
    ensures RightStable(GzipOracle())
  {}

  lemma ProtobufIsRightStable()
    ensures RightStable(ProtobufOracle())
  {
    forall s, t | ProtobufVerify(s)
      ensures ProtobufVerify(s + t)
    {
      Varint.ReadExtends(s[1..], t);
      assert (s + t)[1..] == s[1..] + t;
    }
  }

  lemma KnownIsRightStable(fragment: seq<byte>)
    ensures RightStable(KnownOracle(fragment))
  {
    KnownIsBothStable(fragment);
    BothStableIsRightStable(KnownOracle(fragment));
  }

  // ---------------------------------------------------------------- utf8

  /**
   * The text s together with what is around it, up to its last non-zero byte, decodes and is
   * mostly printable.
   */
  ghost predicate Utf8Carries(r: seq<byte>, s: seq<byte>, t: seq<byte>) {
    var rest := Padding.WithoutZeros(t);
    Utf8.MostlyPrintableTogether(r, if rest == [] then Padding.WithoutZeros(s) else s, rest)
  }

  lemma ZerosDecode(s: seq<byte>)
    requires Utf8.Decode(Padding.WithoutZeros(s)).Some?
    ensures Utf8.Decode(s).Some?
  {
    Padding.RefillZeros(s);
    var head := Padding.WithoutZeros(s);
    var zeros := Padding.Repeat(0, |s| - |head|);
    Utf8.DigitsAppend(head, zeros);
    Utf8.AsciiDecodes(DigitsOf(zeros));
    Utf8.DecodeAppend(DigitsOf(head), DigitsOf(zeros));
  }

  /** An accepted text inside a longer one: exactly when the oracle accepts the longer one too. */
  lemma Utf8VerdictAround(r: seq<byte>, s: seq<byte>, t: seq<byte>)
    requires Utf8Verify(s)
    ensures Utf8Verify(r + s + t) <==> Utf8Carries(r, s, t)
  {
    var rest := Padding.WithoutZeros(t);
    Padding.WithoutZerosAppend(r + s, t);
    Padding.WithoutZerosAppend(r, s);
    ZerosDecode(s);
    if rest == [] {
      Utf8.MostlyPrintableParts(r, Padding.WithoutZeros(s), rest);
      assert r + Padding.WithoutZeros(s) + rest == Padding.WithoutZeros(r + s + t);
    } else {
      Utf8.MostlyPrintableParts(r, s, rest);
    }
  }

  /**
   * The utf8 verdict on a well-formed text that goes on: zeros behind it change nothing, and
   * anything else is accepted iff it is well-formed and nine in ten of all characters are printable.
   */
  lemma Utf8VerdictExtends(s: seq<byte>, t: seq<byte>)
    requires s != [] && Utf8.Decode(s).Some?
    ensures var rest := Padding.WithoutZeros(t);
      if rest == [] then Utf8Verify(s + t) == Utf8Verify(s)
      else Utf8Verify(s + t) <==> Utf8.MostlyPrintableTogether([], s, rest)
  {
    var rest := Padding.WithoutZeros(t);
    Padding.WithoutZerosAppend(s, t);
    Utf8.MostlyPrintableParts([], s, rest);
    assert [] + s == s;
  }

  // ---------------------------------------------------------------- json

  /** The json verdict on an accepted text: the longer one must start like json and be printable throughout. */
  lemma JsonVerdictAround(r: seq<byte>, s: seq<byte>, t: seq<byte>)
    requires JsonVerify(s) && (r == [] || |r| >= 2)
    ensures JsonVerify(r + s + t) <==> (r == [] || JsonVerify(r)) && Utf8.AllPrintable(t)
  {
    Utf8.AllPrintableParts(r, s, t);
    if r == [] {
      assert r + s + t == s + t;
      EmptyIsPrintable();
    }
  }

  lemma EmptyIsPrintable()
    ensures Utf8.AllPrintable([])
  {
    assert DigitsOf([]) == [];
  }

  // ------------------------------------------------------------------ gzip

  /** The gzip verdict looks at the first four bytes alone. */
  lemma GzipVerdictAround(r: seq<byte>, s: seq<byte>, t: seq<byte>)
    requires GzipVerify(s) && (r == [] || |r| >= 4)
    ensures GzipVerify(r + s + t) <==> r == [] || GzipVerify(r)
  {}

  // -------------------------------------------------------------- protobuf

  /** The first eleven bytes and the length of the whole text decide. */
  lemma FieldStart(head: seq<byte>, rest: seq<byte>, total: nat)
    requires |head| >= 11
    ensures StartsField(head + rest, total) <==> StartsField(head, total)
  {
    assert (head + rest)[1..] == head[1..] + rest;
    Varint.ReadTenBytes(head[1..], rest);
  }

  /**
   * The protobuf verdict on an accepted text: with another text in front of it, that text and
   * what follows must start with the tag and length of a field that fits.
   */
  lemma ProtobufVerdictAround(r: seq<byte>, s: seq<byte>, t: seq<byte>)
    requires ProtobufVerify(s) && (r == [] || |r| >= 8)
    ensures ProtobufVerify(r + s + t) <==> r == [] || StartsField(r + s, |r + s + t|)
  {
    if r == [] {
      assert r + s + t == s + t;
      ProtobufIsRightStable();
      assert ProtobufOracle().verify(s + t);
    } else {
      FieldStart(r + s, t, |r + s + t|);
    }
  }

  // --------------------------------------------------------------- utf16le

  function WithoutTrailingUnits(t: seq<byte>): seq<byte> {
    if |t| >= 2 && t[|t| - 2] == 0 && t[|t| - 1] == 0 then WithoutTrailingUnits(t[..|t| - 2]) else t
  }

  /** Three units in four are ASCII. */
  predicate MostlyAscii(us: seq<nat>) {
    CountAscii(us) * 4 >= |us| * 3
  }

  /**
   * The text s together with what is around it, up to the last non-zero unit: whole units,
   * three in four of them ASCII.
   */
  predicate Utf16LeCarries(r: seq<byte>, s: seq<byte>, t: seq<byte>) {
    && |t| % 2 == 0
    && var rest := WithoutTrailingUnits(t);
       MostlyAscii(Units(r) + Units(if rest == [] then WithoutZeroUnits(s) else s) + Units(rest))
  }

  lemma {:induction false} ZeroUnitsKeepParity(s: seq<byte>)
    ensures |WithoutZeroUnits(s)| % 2 == |s| % 2
    ensures WithoutZeroUnits(s) <= s
  {
    if |s| >= 4 && s[|s| - 2] == 0 && s[|s| - 1] == 0 {
      ZeroUnitsKeepParity(s[..|s| - 2]);
    }
  }

  lemma {:induction false} ZeroUnitsAppend(s: seq<byte>, t: seq<byte>)
    requires |s| >= 2 && |t| % 2 == 0
    ensures WithoutZeroUnits(s + t)
         == if WithoutTrailingUnits(t) == [] then WithoutZeroUnits(s) else s + WithoutTrailingUnits(t)
    decreases |t|
  {
    if t == [] {
      assert s + t == s;
    } else if t[|t| - 2] == 0 && t[|t| - 1] == 0 {
      ZeroUnitsAppend(s, t[..|t| - 2]);
      assert (s + t)[..|s + t| - 2] == s + t[..|t| - 2];
    }
  }

  lemma {:induction false} UnitsOfAppend(a: seq<nat>, b: seq<nat>)
    requires |a| % 2 == 0
    ensures UnitsOf(a + b) == UnitsOf(a) + UnitsOf(b)
  {
    if a == [] {
      assert a + b == b;
    } else {
      UnitsOfAppend(a[2..], b);
      assert (a + b)[2..] == a[2..] + b && (a + b)[..2] == a[..2];
      var first, rest := [a[0] + 256 * a[1]], UnitsOf(a[2..]);
      assert UnitsOf(a + b) == first + (rest + UnitsOf(b));
      assert UnitsOf(a) == first + rest;
    }
  }

  lemma UnitsAppend(a: seq<byte>, b: seq<byte>)
    requires |a| % 2 == 0
    ensures Units(a + b) == Units(a) + Units(b)
  {
    Utf8.DigitsAppend(a, b);
    UnitsOfAppend(DigitsOf(a), DigitsOf(b));
  }

  lemma {:induction false} CountAsciiAppend(us: seq<nat>, vs: seq<nat>)
    ensures CountAscii(us + vs) == CountAscii(us) + CountAscii(vs)
  {
    if us == [] {
      assert us + vs == vs;
    } else {
      CountAsciiAppend(us[1..], vs);
      assert (us + vs)[1..] == us[1..] + vs;
    }
  }

  lemma {:induction false} TrailingUnitsKeepParity(t: seq<byte>)
    ensures |WithoutTrailingUnits(t)| % 2 == |t| % 2
  {
    if |t| >= 2 && t[|t| - 2] == 0 && t[|t| - 1] == 0 {
      TrailingUnitsKeepParity(t[..|t| - 2]);
    }
  }

  /** The units counted are the printable ASCII ones. */
  lemma {:induction false} CountAsciiIsCardinality(us: seq<nat>)
    ensures CountAscii(us) == |set i | 0 <= i < |us| && ' ' as nat <= us[i] <= '~' as nat|
    decreases |us|
  {
    var at := set i | 0 <= i < |us| && ' ' as nat <= us[i] <= '~' as nat;
    if us != [] {
      var n := |us| - 1;
      var before := set i | 0 <= i < n && ' ' as nat <= us[..n][i] <= '~' as nat;
      CountAsciiIsCardinality(us[..n]);
      CountAsciiAppend(us[..n], [us[n]]);
      assert us == us[..n] + [us[n]];
      assert at == before + if ' ' as nat <= us[n] <= '~' as nat then {n} else {};
    }
  }

  /** Units before and after do not make varied ones uniform. */
  lemma VariedInside(us: seq<nat>, vs: seq<nat>, ws: seq<nat>)
    requires Varied(vs)
    ensures Varied(us + vs + ws)
  {
    var all := us + vs + ws;
    var i :| 0 <= i < |vs| && vs[i] != 0;
    var j :| 0 <= j < |vs| && vs[j] != vs[0];
    assert all[|us| + i] == vs[i] && all[|us| + j] == vs[j] && all[|us|] == vs[0];
    assert all[|us| + j] != all[0] || all[|us|] != all[0];
  }

  lemma VariedExtends(us: seq<nat>, vs: seq<nat>)
    requires Varied(us)
    ensures Varied(us + vs)
  {
    VariedInside([], us, vs);
    assert [] + us + vs == us + vs;
  }

  /** The units of an accepted text, trailing zero units included, are varied. */
  lemma AcceptedIsVaried(s: seq<byte>)
    requires Utf16LeVerify(s)
    ensures |s| % 2 == 0 && |WithoutZeroUnits(s)| >= 8 && |s| >= 8 && Varied(Units(s))
  {
    var head := WithoutZeroUnits(s);
    ZeroUnitsKeepParity(s);
    assert s == head + s[|head|..];
    UnitsAppend(head, s[|head|..]);
    VariedExtends(Units(head), Units(s[|head|..]));
  }

  lemma TextInside(r: seq<byte>, m: seq<byte>, rest: seq<byte>, whole: seq<byte>)
    requires |r| % 2 == 0 && |m| % 2 == 0 && |m| >= 8 && |rest| % 2 == 0 && Varied(Units(m))
    requires whole == r + m + rest
    ensures Utf16LeText(whole) <==> MostlyAscii(Units(r) + Units(m) + Units(rest))
  {
    UnitsAppend(r + m, rest);
    UnitsAppend(r, m);
    VariedInside(Units(r), Units(m), Units(rest));
  }

  /** Stripping zero units off the end of a text stops inside an accepted one. */
  lemma {:induction false} ZeroUnitsBehind(r: seq<byte>, s: seq<byte>)
    requires |WithoutZeroUnits(s)| >= 4
    ensures WithoutZeroUnits(r + s) == r + WithoutZeroUnits(s)
    decreases |s|
  {
    if |s| >= 4 && s[|s| - 2] == 0 && s[|s| - 1] == 0 {
      ZeroUnitsBehind(r, s[..|s| - 2]);
      assert (r + s)[..|r + s| - 2] == r + s[..|s| - 2];
    }
  }

  /** The utf16le verdict on an accepted text with whole units in front of it. */
  lemma Utf16LeVerdictAround(r: seq<byte>, s: seq<byte>, t: seq<byte>)
    requires Utf16LeVerify(s) && |r| % 2 == 0
    ensures Utf16LeVerify(r + s + t) <==> Utf16LeCarries(r, s, t)
  {
    AcceptedIsVaried(s);
    ZeroUnitsKeepParity(r + s + t);
    if |t| % 2 == 0 {
      var rest, head := WithoutTrailingUnits(t), WithoutZeroUnits(s);
      ZeroUnitsAppend(r + s, t);
      ZeroUnitsBehind(r, s);
      TrailingUnitsKeepParity(t);
      if rest == [] {
        TextInside(r, head, rest, r + head);
      } else {
        TextInside(r, s, rest, r + s + rest);
      }
    }
  }

  // ------------------------------------------------------ all six oracles

  ghost predicate IsBuiltin(o: Oracle) {
    || o == Utf8Oracle() || o == JsonOracle() || o == Utf16LeOracle() || o == GzipOracle() || o == ProtobufOracle()
    || exists fragment :: o == KnownOracle(fragment)
  }

  /** When the verdict of a built-in oracle on s carries over to r + s + t. */
  ghost predicate Carries(o: Oracle, r: seq<byte>, s: seq<byte>, t: seq<byte>) {
    && (o == Utf8Oracle() ==> Utf8Carries(r, s, t))
    && (o == JsonOracle() ==> (r == [] || JsonVerify(r)) && Utf8.AllPrintable(t))
    && (o == Utf16LeOracle() ==> Utf16LeCarries(r, s, t))
    && (o == GzipOracle() ==> r == [] || GzipVerify(r))
    && (o == ProtobufOracle() ==> r == [] || StartsField(r + s, |r + s + t|))
  }

  /** Nothing, or whole units and at least the shortest block: what can stand in front of a judged text. */
  predicate IsLead(r: seq<byte>) {
    r == [] || (|r| >= 8 && |r| % 2 == 0)
  }

  /**
   * For each of the six oracles: a text with an accepted one inside is accepted exactly when
   * `Carries` holds; for known that is always, for gzip and protobuf whenever nothing stands in front.
   */
  lemma BuiltinVerdictAroundIff(o: Oracle, r: seq<byte>, s: seq<byte>, t: seq<byte>)
    requires IsBuiltin(o) && o.verify(s) && IsLead(r)
    ensures o.verify(r + s + t) <==> Carries(o, r, s, t)
  {
    if o == Utf8Oracle() {
      Utf8VerdictAround(r, s, t);
    } else if o == JsonOracle() {
      JsonVerdictAround(r, s, t);
    } else if o == Utf16LeOracle() {
      Utf16LeVerdictAround(r, s, t);
    } else if o == GzipOracle() {
      GzipVerdictAround(r, s, t);
    } else if o == ProtobufOracle() {
      ProtobufVerdictAround(r, s, t);
    } else {
      var fragment :| o == KnownOracle(fragment);
      KnownIsBothStable(fragment);
    }
  }

  /** The same with nothing in front. */
  lemma BuiltinVerdictExtendsIff(o: Oracle, s: seq<byte>, t: seq<byte>)
    requires IsBuiltin(o) && o.verify(s)
    ensures o.verify(s + t) <==> Carries(o, [], s, t)
  {
    BuiltinVerdictAroundIff(o, [], s, t);
    assert [] + s + t == s + t;
  }

  // -------------------------------------------- when a utf8 head is accepted

  /**
   * The first n bytes of a printable text are accepted as utf8 exactly when the cut does not
   * go through a character.
   */
  lemma PrintableHeadIff(msg: seq<byte>, n: nat)
    requires 0 < n <= |msg| && Utf8.AllPrintable(msg)
    ensures Utf8Verify(msg[..n]) <==> Utf8.CutsCleanly(msg, n)
  {
    Utf8.CutIsPrintable(msg, n);
    Utf8.CutDecodes(msg, n);
    if Utf8.CutsCleanly(msg, n) {
      Utf8.PrintableEnd(msg[..n]);
    } else if Utf8Verify(msg[..n]) {
      ZerosDecode(msg[..n]);
    }
  }

  /** The bytes from m to n are accepted exactly when neither cut goes through a character. */
  lemma PrintableSliceIff(msg: seq<byte>, m: nat, n: nat)
    requires m < n <= |msg| && Utf8.AllPrintable(msg)
    ensures Utf8Verify(msg[m..n]) <==> Utf8.CutsCleanly(msg, m) && Utf8.CutsCleanly(msg, n)
  {
    if Utf8.CutsCleanly(msg, m) {
      Utf8.CutIsPrintable(msg, m);
      PrintableHeadIff(msg[m..], n - m);
      assert msg[m..][..n - m] == msg[m..n];
    } else {
      StartsInside(msg[m..n]);
    }
  }

  lemma StartsInside(s: seq<byte>)
    requires s != [] && 0x80 <= s[0] <= 0xBF
    ensures !Utf8Verify(s)
  {
    assert DigitsOf(s)[0] == s[0] as nat;
    assert Utf8.SequenceLength(DigitsOf(s)) == 0;
    if Utf8Verify(s) {
      ZerosDecode(s);
    }
  }
}
