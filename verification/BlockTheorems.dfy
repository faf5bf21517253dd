/** What every hit of the block-cipher hunt proves. */
module BlockTheorems {
  import opened BlockHunt
  import opened Bytes
  import opened Carrying
  import opened Ciphers
  import opened Oracles
  import opened Report
  import opened Results
  import opened Windows
  import IvSearch
  import Padding
  import Samples

  // ------------------------------------------------------------ exactness

  /** The hits are exactly the accepted windows, each once, in offset order. */
  lemma HitsAreExact(t: Task)
    ensures forall h :: h in Hits(t) <==> HitAt(t, h.keyOffset) == Some(h)
    ensures forall i, j :: 0 <= i < j < |Hits(t)| ==> Hits(t)[i].keyOffset < Hits(t)[j].keyOffset
  {
    CollectByIndex(Verdicts(t), (h: Hit) => h.keyOffset, t.Total());
  }

  // ------------------------------------------------------- every hit is a witness

  /** The decryption before padding removal: the plaintext refilled to the length of the ciphertext. */
  function Full(t: Task, h: Hit): seq<byte>
    requires h.padding.Some?
  {
    Padding.Refill(h.plaintext, h.padding.value, |Flatten(t.blocks)|)
  }

  /**
   * Anyone holding the ciphertext can check the hit: its key lies in the dump where it
   * says, and encrypting the refilled plaintext gives the ciphertext back (every block
   * but the first when no IV is reported).
   */
  ghost predicate Witness(t: Task, h: Hit) {
    && h.padding.Some?
    && t.cipher.Usable(h.key)
    && h.keyOffset + t.cipher.keyLen <= |t.dump|
    && h.key == t.dump[h.keyOffset..h.keyOffset + t.cipher.keyLen]
    && |Full(t, h)| == |Flatten(t.blocks)|
    && var ps := Chunks(Full(t, h), if t.cipher.blockLen == 0 then 1 else t.cipher.blockLen);
       match h.mode
       case Ecb => h.iv.None? && EcbEncrypt(t.cipher, h.key, ps) == t.blocks
       case Cbc =>
         if h.iv.Some? then
           CbcEncrypt(t.cipher, h.key, h.iv.value, ps) == t.blocks
         else
           |ps| == |t.blocks| > 0 && CbcEncrypt(t.cipher, h.key, t.blocks[0], ps[1..]) == t.blocks[1..]
       case _ => false
  }

  lemma Block0IsConsistent(t: Task, key: seq<byte>)
    requires t.Valid() && t.cipher.Usable(key)
    ensures var b0 := ResolveBlock0(t, key);
            && |b0.bytes| == t.cipher.blockLen
            && (b0.iv.Some? ==>
                  && |b0.iv.value| == t.cipher.blockLen
                  && b0.bytes == Xor(t.cipher.decrypt(key, t.blocks[0]), b0.iv.value))
            && (b0.ivOffset.Some? ==>
                  && b0.iv.Some?
                  && b0.ivOffset.value + t.cipher.blockLen <= |t.dump|
                  && t.dump[b0.ivOffset.value..][..t.cipher.blockLen] == b0.iv.value)
  {
    var s := IvTask(t, key);
    var cs := IvSearch.BestIvs(s);
    if t.fixedIv.None? && t.scanIv && |t.dump| >= t.cipher.blockLen && cs != [] {
      IvSearch.BestIvsIsTop(s);
      IvSearch.AcceptedIsExact(s);
      assert cs[0] in IvSearch.Accepted(s);
      assert IvSearch.CandidateAt(s, cs[0].offset) == Some(cs[0]);
      var o := cs[0].offset;
      assert t.dump[o..][..s.block] == t.dump[o..o + s.block];
    }
  }

  /**
   * The IV candidates of a hit are exactly the best eight accepted windows when an IV scan
   * ran, none otherwise; the IV reported is the first of them.
   */
  lemma CandidatesAreTop(t: Task, o: nat)
    requires t.Valid() && HitAt(t, o).Some? && HitAt(t, o).value.mode == Cbc
    ensures var h := HitAt(t, o).value;
      if t.fixedIv.Some? then
        h.iv == t.fixedIv && h.ivOffset == None && h.ivCandidates == []
      else if t.scanIv && |t.dump| >= t.cipher.blockLen then
        && IvSearch.IsTop(h.ivCandidates, IvSearch.Accepted(IvTask(t, h.key)), 8)
        && (h.ivCandidates == [] ==> h.iv == None && h.ivOffset == None)
        && (h.ivCandidates != [] ==> h.iv == Some(h.ivCandidates[0].iv) && h.ivOffset == Some(h.ivCandidates[0].offset))
      else
        h.iv == None && h.ivOffset == None && h.ivCandidates == []
  {
    IvSearch.BestIvsIsTop(IvTask(t, t.Key(o)));
  }

  lemma UnpaddedIsFull(t: Task, h: Hit, pt: seq<byte>, ps: seq<seq<byte>>)
    requires 0 < t.cipher.blockLen
    requires AreBlocks(t.blocks, t.cipher.blockLen) && AreBlocks(ps, t.cipher.blockLen)
    requires |ps| == |t.blocks| && pt == Flatten(ps)
    requires h.padding == Some(Padding.Unpad(pt).1) && h.plaintext == Padding.Unpad(pt).0
    ensures Full(t, h) == pt && |pt| == |Flatten(t.blocks)|
    ensures Chunks(pt, t.cipher.blockLen) == ps
  {
    FlattenLength(ps, t.cipher.blockLen);
    FlattenLength(t.blocks, t.cipher.blockLen);
    Padding.RefillUndoesUnpad(pt);
    ChunksFlatten(ps, t.cipher.blockLen);
  }

  lemma FlattenCons(b: seq<byte>, bs: seq<seq<byte>>)
    ensures Flatten([b] + bs) == b + Flatten(bs)
  {
    assert ([b] + bs)[1..] == bs;
  }

  lemma EcbHitIsWitness(t: Task, o: nat)
    requires t.Valid() && HitAt(t, o).Some? && HitAt(t, o).value.mode == Ecb
    ensures Witness(t, HitAt(t, o).value)
    ensures Full(t, HitAt(t, o).value) == Flatten(EcbDecrypt(t.cipher, t.Key(o), t.blocks))
  {
    var h, key := HitAt(t, o).value, t.Key(o);
    var ps := EcbDecrypt(t.cipher, key, t.blocks);
    EcbReencrypts(t.cipher, key, t.blocks);
    UnpaddedIsFull(t, h, Flatten(ps), ps);
  }

  /** What the blocks of a CBC hit encrypt to. */
  lemma CbcReencrypts(t: Task, key: seq<byte>)
    requires t.Valid() && t.cipher.Usable(key)
    ensures var b0, tail := ResolveBlock0(t, key), CbcTail(t.cipher, key, t.blocks);
      && AreBlocks([b0.bytes] + tail, t.cipher.blockLen)
      && Flatten([b0.bytes] + tail) == b0.bytes + Flatten(tail)
      && CbcEncrypt(t.cipher, key, t.blocks[0], tail) == t.blocks[1..]
      && (b0.iv.Some? ==> CbcEncrypt(t.cipher, key, b0.iv.value, [b0.bytes] + tail) == t.blocks)
  {
    var b0, tail := ResolveBlock0(t, key), CbcTail(t.cipher, key, t.blocks);
    Block0IsConsistent(t, key);
    CbcTailReencrypts(t.cipher, key, t.blocks);
    FlattenCons(b0.bytes, tail);
    if b0.iv.Some? {
      CbcTailIsIvFree(t.cipher, key, b0.iv.value, t.blocks);
      CbcDecryptBlocks(t.cipher, key, b0.iv.value, t.blocks);
    }
  }

  /** The hit a CBC verdict makes. */
  function CbcHitOf(t: Task, o: nat, m: Match): Hit
    requires o < t.Total() && t.blocks != []
  {
    var key := t.Key(o);
    var b0 := ResolveBlock0(t, key);
    MakeHit(t, Cbc, o, key, b0, b0.bytes + Flatten(CbcTail(t.cipher, key, t.blocks)), m)
  }

  lemma CbcHitShape(t: Task, o: nat)
    requires HitAt(t, o).Some? && HitAt(t, o).value.mode == Cbc
    ensures o < t.Total() && t.blocks != [] && t.cipher.Usable(t.Key(o))
    ensures HitAt(t, o).value == CbcHitOf(t, o, HitAt(t, o).value.matched)
  {}

  lemma CbcHitOfIsWitness(t: Task, o: nat, m: Match)
    requires t.Valid() && o < t.Total() && t.cipher.accepts(t.Key(o))
    ensures Witness(t, CbcHitOf(t, o, m))
    ensures Full(t, CbcHitOf(t, o, m))
         == ResolveBlock0(t, t.Key(o)).bytes + Flatten(CbcTail(t.cipher, t.Key(o), t.blocks))
  {
    var h, key := CbcHitOf(t, o, m), t.Key(o);
    var b0, tail := ResolveBlock0(t, key), CbcTail(t.cipher, key, t.blocks);
    CbcReencrypts(t, key);
    UnpaddedIsFull(t, h, b0.bytes + Flatten(tail), [b0.bytes] + tail);
    assert ([b0.bytes] + tail)[1..] == tail;
  }

  lemma CbcHitIsWitness(t: Task, o: nat)
    requires t.Valid() && HitAt(t, o).Some? && HitAt(t, o).value.mode == Cbc
    ensures Witness(t, HitAt(t, o).value)
    ensures Full(t, HitAt(t, o).value)
         == ResolveBlock0(t, t.Key(o)).bytes + Flatten(CbcTail(t.cipher, t.Key(o), t.blocks))
  {
    CbcHitShape(t, o);
    CbcHitOfIsWitness(t, o, HitAt(t, o).value.matched);
  }

  lemma HitModes(t: Task, o: nat)
    requires HitAt(t, o).Some?
    ensures HitAt(t, o).value.mode == Ecb || HitAt(t, o).value.mode == Cbc
  {}

  /** Every reported hit is a witness. */
  lemma EveryHitIsWitness(t: Task, h: Hit)
    requires t.Valid() && h in Hits(t)
    ensures Witness(t, h)
  {
    HitsAreExact(t);
    HitModes(t, h.keyOffset);
    if h.mode == Ecb {
      EcbHitIsWitness(t, h.keyOffset);
    } else {
      CbcHitIsWitness(t, h.keyOffset);
    }
  }

  // --------------------------------------------------------- an unknown block 0

  /**
   * No IV is reported exactly when none is given and none is found: no search was asked for, or
   * no window of the dump gives a text that an oracle accepts. Block 0 then reads 0x3F throughout.
   */
  lemma NoIvIff(t: Task, h: Hit)
    requires t.Valid() && h in Hits(t) && h.mode == Cbc
    ensures h.iv.None? <==> t.fixedIv.None? && (!t.scanIv || IvSearch.Accepted(IvTask(t, h.key)) == [])
    ensures h.iv.None? ==>
      && h.ivOffset.None? && h.ivCandidates == [] && h.padding.Some?
      && t.cipher.blockLen <= |Full(t, h)| && Full(t, h)[..t.cipher.blockLen] == Padding.Repeat(0x3F, t.cipher.blockLen)
  {
    HitsAreExact(t);
    CbcHitIsWitness(t, h.keyOffset);
    Block0IsConsistent(t, h.key);
    IvSearch.BestIvsIsTop(IvTask(t, h.key));
    if |t.dump| < t.cipher.blockLen {
      assert IvSearch.Accepted(IvTask(t, h.key)) == [];
    }
  }

  // ------------------------------------------------- verdicts on the whole plaintext

  lemma HeadIsPrefix(blocks: seq<seq<byte>>)
    ensures Flatten(blocks) == HeadBytes(blocks) + Flatten(blocks[Min(VERIFY_BLOCKS, |blocks|)..])
  {
    var k := Min(VERIFY_BLOCKS, |blocks|);
    FlattenAppend(blocks[..k], blocks[k..]);
    assert blocks == blocks[..k] + blocks[k..];
  }

  /** The text the oracles were asked about. */
  function Judged(t: Task, h: Hit): seq<byte>
    requires t.blocks != []
  {
    if h.mode == Ecb then EcbHead(t, h.key)
    else
      match CbcHead(t, h.key)
      case None => []
      case Some(head) => head
  }

  /** Where that text starts in the whole decryption: behind block 0 in CBC, unless block 0 is all there is. */
  function JudgedFrom(t: Task, h: Hit): nat {
    if h.mode == Cbc && |t.blocks| > 1 then t.cipher.blockLen else 0
  }

  /** Oracle i judged the hit: it accepts the text, none is preferred to it, and the hit names it. */
  ghost predicate JudgedBy(t: Task, h: Hit, i: nat)
    requires t.blocks != []
  {
    IsBest(t.oracles, Judged(t, h), i) && h.matched == Match(t.oracles[i].name, t.oracles[i].confidence)
  }

  lemma SomeOracleJudged(t: Task, h: Hit) returns (i: nat)
    requires t.Valid() && HitAt(t, h.keyOffset) == Some(h)
    ensures JudgedBy(t, h, i)
  {
    var head := Judged(t, h);
    BestMatchIsBest(t.oracles, head);
    assert BestMatch(t.oracles, head) == Some(h.matched);
    i :| IsBest(t.oracles, head, i) && h.matched == Match(t.oracles[i].name, t.oracles[i].confidence);
  }

  lemma EcbJudgedInside(t: Task, h: Hit)
    requires t.Valid() && HitAt(t, h.keyOffset) == Some(h) && h.mode == Ecb
    ensures Judged(t, h) <= Full(t, h)
  {
    EcbHitIsWitness(t, h.keyOffset);
    HeadIsPrefix(EcbDecrypt(t.cipher, h.key, t.blocks));
  }

  lemma CbcJudgedInside(t: Task, h: Hit)
    requires t.Valid() && HitAt(t, h.keyOffset) == Some(h) && h.mode == Cbc
    ensures JudgedFrom(t, h) <= |Full(t, h)| && Judged(t, h) <= Full(t, h)[JudgedFrom(t, h)..]
    ensures |t.blocks| == 1 ==> Judged(t, h) == Full(t, h)
  {
    CbcHitIsWitness(t, h.keyOffset);
    Block0IsConsistent(t, h.key);
    if |t.blocks| > 1 {
      HeadIsPrefix(CbcTail(t.cipher, h.key, t.blocks));
    }
  }

  /** `whole` holds `part` at `from`. */
  ghost predicate HoldsAt(whole: seq<byte>, part: seq<byte>, from: nat) {
    && from + |part| <= |whole|
    && whole == whole[..from] + part + whole[from + |part|..]
  }

  lemma PrefixHolds(whole: seq<byte>, part: seq<byte>, from: nat)
    requires from <= |whole| && part <= whole[from..]
    ensures HoldsAt(whole, part, from)
  {
    assert whole[from..] == part + whole[from..][|part|..];
    assert whole == whole[..from] + whole[from..];
  }

  /** The text the oracles were asked about lies inside the whole decryption. */
  lemma JudgedInside(t: Task, h: Hit)
    requires t.Valid() && h in Hits(t)
    ensures h.padding.Some? && HoldsAt(Full(t, h), Judged(t, h), JudgedFrom(t, h))
    ensures h.mode == Cbc && |t.blocks| == 1 ==> Judged(t, h) == Full(t, h)
  {
    HitsAreExact(t);
    HitModes(t, h.keyOffset);
    if h.mode == Ecb {
      EcbJudgedInside(t, h);
    } else {
      CbcJudgedInside(t, h);
    }
    PrefixHolds(Full(t, h), Judged(t, h), JudgedFrom(t, h));
  }

  lemma VerdictOnWhole(o: Oracle, whole: seq<byte>, part: seq<byte>, from: nat)
    requires o.verify(part) && HoldsAt(whole, part, from)
    ensures from == 0 && RightStable(o) ==> o.verify(whole)
    ensures BothStable(o) ==> o.verify(whole)
  {
    if from == 0 {
      assert whole == part + whole[|part|..];
    }
  }

  /**
   * The oracle that judged a hit accepts the whole decryption, not only the text it was asked
   * about: for ECB if more text on the right cannot revoke its verdict, for CBC if more text
   * on either side cannot, and for a single CBC block always.
   */
  lemma VerdictCarries(t: Task, h: Hit) returns (i: nat)
    requires t.Valid() && h in Hits(t)
    ensures h.padding.Some? && JudgedBy(t, h, i)
    ensures h.mode == Ecb && RightStable(t.oracles[i]) ==> t.oracles[i].verify(Full(t, h))
    ensures BothStable(t.oracles[i]) ==> t.oracles[i].verify(Full(t, h))
    ensures h.mode == Cbc && |t.blocks| == 1 ==> t.oracles[i].verify(Full(t, h))
  {
    HitsAreExact(t);
    i := SomeOracleJudged(t, h);
    JudgedInside(t, h);
    VerdictOnWhole(t.oracles[i], Full(t, h), Judged(t, h), JudgedFrom(t, h));
  }

  /** A hit judged by a known fragment contains it, in both modes. */
  lemma KnownHitContainsFragment(t: Task, h: Hit, i: nat, fragment: seq<byte>)
    requires t.Valid() && h in Hits(t) && JudgedBy(t, h, i) && t.oracles[i] == KnownOracle(fragment)
    ensures h.padding.Some? && KnownVerify(fragment, Full(t, h))
  {
    KnownIsBothStable(fragment);
    var j := VerdictCarries(t, h);
    IsBestUnique(t.oracles, Judged(t, h), i, j);
  }

  /** The whole decryption of an ECB hit judged as gzip or protobuf is accepted as such. */
  lemma FramedHitIsFramed(t: Task, h: Hit, i: nat)
    requires t.Valid() && h in Hits(t) && h.mode == Ecb && JudgedBy(t, h, i)
    ensures h.padding.Some?
    ensures t.oracles[i] == GzipOracle() ==> GzipVerify(Full(t, h))
    ensures t.oracles[i] == ProtobufOracle() ==> ProtobufVerify(Full(t, h))
  {
    GzipIsRightStable();
    ProtobufIsRightStable();
    var j := VerdictCarries(t, h);
    IsBestUnique(t.oracles, Judged(t, h), i, j);
  }

  /**
   * The whole decryption of a hit judged by a built-in oracle, in either mode, is accepted by
   * it exactly when `Carries` holds of what stands before and behind the judged text. In CBC
   * that is block 0, for blocks of 8 or 16 bytes.
   */
  lemma BuiltinVerdictCarriesIff(t: Task, h: Hit, i: nat)
    requires t.Valid() && h in Hits(t) && JudgedBy(t, h, i) && IsBuiltin(t.oracles[i])
    requires h.mode == Ecb || t.cipher.blockLen == 8 || t.cipher.blockLen == 16
    ensures h.padding.Some? && HoldsAt(Full(t, h), Judged(t, h), JudgedFrom(t, h))
    ensures var full, from, to := Full(t, h), JudgedFrom(t, h), JudgedFrom(t, h) + |Judged(t, h)|;
      t.oracles[i].verify(full) <==> Carries(t.oracles[i], full[..from], Judged(t, h), full[to..])
  {
    JudgedInside(t, h);
    CarriesInWhole(t.oracles[i], Full(t, h), Judged(t, h), JudgedFrom(t, h));
  }

  lemma CarriesInWhole(o: Oracle, whole: seq<byte>, part: seq<byte>, from: nat)
    requires IsBuiltin(o) && o.verify(part) && HoldsAt(whole, part, from) && from in {0, 8, 16}
    ensures o.verify(whole) <==> Carries(o, whole[..from], part, whole[from + |part|..])
  {
    BuiltinVerdictAroundIff(o, whole[..from], part, whole[from + |part|..]);
  }

  /**
   * A hit judged as utf8, in either mode and for every block length: the whole decryption is
   * accepted as utf8 exactly when what is around the judged text decodes too, up to its last
   * non-zero byte, and nine in ten of all characters are printable.
   */
  lemma Utf8HitIsUtf8Iff(t: Task, h: Hit, i: nat)
    requires t.Valid() && h in Hits(t) && JudgedBy(t, h, i) && t.oracles[i] == Utf8Oracle()
    ensures h.padding.Some? && HoldsAt(Full(t, h), Judged(t, h), JudgedFrom(t, h))
    ensures var full, from, to := Full(t, h), JudgedFrom(t, h), JudgedFrom(t, h) + |Judged(t, h)|;
      Utf8Verify(full) <==> Utf8Carries(full[..from], Judged(t, h), full[to..])
  {
    JudgedInside(t, h);
    Utf8InsideWhole(Full(t, h), Judged(t, h), JudgedFrom(t, h));
  }

  lemma Utf8InsideWhole(whole: seq<byte>, part: seq<byte>, from: nat)
    requires Utf8Verify(part) && HoldsAt(whole, part, from)
    ensures Utf8Verify(whole) <==> Utf8Carries(whole[..from], part, whole[from + |part|..])
  {
    Utf8VerdictAround(whole[..from], part, whole[from + |part|..]);
  }

  // --------------------------------------------------- an ECB verdict that fails

  /** The blocks of a sample in front of a block of garbage. */
  function GarbageBehindSample(s: seq<byte>): seq<seq<byte>>
    requires |s| == 32
  {
    [s[..16], s[16..], Samples.GARBAGE]
  }

  lemma GarbageBehindSampleBytes(s: seq<byte>)
    requires |s| == 32
    ensures HeadBytes(GarbageBehindSample(s)) == s
    ensures Flatten(GarbageBehindSample(s)) == s + Samples.GARBAGE
  {
    var a, b, g := s[..16], s[16..], Samples.GARBAGE;
    assert GarbageBehindSample(s)[..2] == [a] + [b] && GarbageBehindSample(s) == [a] + ([b] + [g]);
    FlattenCons(a, [b]);
    FlattenCons(b, []);
    FlattenCons(a, [b] + [g]);
    FlattenCons(b, [g]);
    FlattenCons(g, []);
  }

  /** A dump that is the key, and the ECB encryption of those blocks. */
  function EcbSampleTask(c: BlockCipher, key: seq<byte>, o: Oracle, s: seq<byte>): Task
    requires |s| == 32
  {
    Task(key, EcbEncrypt(c, key, GarbageBehindSample(s)), c, [o], true, None, "")
  }

  lemma EcbSampleHit(c: BlockCipher, key: seq<byte>, o: Oracle, s: seq<byte>)
    requires c.WellFormed() && c.blockLen == 16 && c.Usable(key) && |s| == 32 && o.verify(s)
    ensures var t := EcbSampleTask(c, key, o, s);
      && t.Valid() && t.Total() == 1 && t.Key(0) == key
      && EcbDecrypt(c, key, t.blocks) == GarbageBehindSample(s)
      && HitAt(t, 0).Some? && HitAt(t, 0).value.mode == Ecb && HitAt(t, 0).value.keyOffset == 0
      && HitAt(t, 0).value.key == key && HitAt(t, 0).value.matched == Match(o.name, o.confidence)
  {
    var t, ps := EcbSampleTask(c, key, o, s), GarbageBehindSample(s);
    EcbRestores(c, key, ps);
    assert t.Key(0) == key;
    GarbageBehindSampleBytes(s);
    BestOfOne(o, s);
  }

  /**
   * A verdict on the head does not always carry: for every cipher with 16-byte blocks and every
   * key there is an ECB hit judged on 32 bytes as utf8, as json or as utf16le, whose whole
   * decryption is rejected.
   */
  lemma EcbVerdictCanFail(c: BlockCipher, key: seq<byte>, o: Oracle, s: seq<byte>) returns (t: Task, h: Hit)
    requires c.WellFormed() && c.blockLen == 16 && c.Usable(key)
    requires Samples.IsSample(o, s) && (o == Utf8Oracle() || o == JsonOracle() || o == Utf16LeOracle())
    ensures t.Valid() && t.cipher == c && t.oracles == [o]
    ensures h in Hits(t) && h.mode == Ecb && h.key == key && JudgedBy(t, h, 0) && Judged(t, h) == s
    ensures h.padding.Some? && !o.verify(Full(t, h))
  {
    Samples.SampleIsAccepted(o, s);
    Samples.RestRevokes(o, s);
    GarbageBehindSampleBytes(s);
    BestOfOne(o, s);
    EcbSampleHit(c, key, o, s);
    t := EcbSampleTask(c, key, o, s);
    h := HitAt(t, 0).value;
    HitsAreExact(t);
    EcbHitIsWitness(t, 0);
  }
}
