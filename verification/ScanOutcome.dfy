/** When a scan succeeds, when it fails and how, and that its answer is the hunts one after the other. */
module ScanOutcome {
  import opened Bytes
  import opened Ciphers
  import opened Config
  import opened CounterMode
  import opened Limited
  import opened Oracles
  import opened Report
  import opened Results
  import opened Scan
  import opened ScanTheorems
  import BlockCompleteness
  import BlockTheorems
  import Padding

  // -------------------------------------------------------- one cipher

  /** The ciphertext and the fixed IV fit a block cipher whose key fits the dump; a keystream takes any ciphertext. */
  predicate Ready(e: Env, c: CipherChoice) {
    if c.IsStream() then e.ciphertext != []
    else
      |e.dump| < c.KeyLen()
      || (e.ciphertext != [] && (e.config.mode == Block ==> Aligned(e, c) && IvFits(e, c)))
  }

  predicate Aligned(e: Env, c: CipherChoice)
    requires !c.IsStream()
  {
    |e.ciphertext| % c.BlockLen() == 0
  }

  predicate IvFits(e: Env, c: CipherChoice)
    requires !c.IsStream()
  {
    e.config.fixedIv.Some? ==> |e.config.fixedIv.value| == c.BlockLen()
  }

  lemma PartSucceedsIff(e: Env, c: CipherChoice)
    ensures PartOf(e, c).Ok? <==> Ready(e, c)
  {}

  /** What a failing part says of the ciphertext or the IV is so. */
  lemma PartErrorIsTrue(e: Env, c: CipherChoice)
    requires PartOf(e, c).Err?
    ensures match PartOf(e, c).error
            case EmptyCiphertext => e.ciphertext == []
            case Misaligned(len, block) =>
              !c.IsStream() && len == |e.ciphertext| && block == c.BlockLen() && !Aligned(e, c)
            case FixedIvLength(got, algo, block) =>
              && !c.IsStream() && Aligned(e, c) && !IvFits(e, c)
              && got == |e.config.fixedIv.value| && algo == c.Label() && block == c.BlockLen()
            case _ => false
  {}

  // ----------------------------------------------------- the whole answer

  /** The hits of each cipher. */
  function HuntsOf(e: Env): (hunts: seq<seq<Hit>>)
    ensures |hunts| == |e.config.ciphers|
  {
    seq(|e.config.ciphers|, i requires 0 <= i < |e.config.ciphers| => HuntOf(e, e.config.ciphers[i]))
  }

  /** The hits of the first k ciphers, hunt after hunt. */
  function HitsOfFirst(e: Env, k: nat): seq<Hit>
    requires k <= |e.config.ciphers|
  {
    Concat(HuntsOf(e), k)
  }

  lemma PartAt(e: Env, i: nat)
    requires e.suite.WellFormed() && i < |e.config.ciphers|
    ensures PartsOf(e)[i].Ok? <==> Ready(e, e.config.ciphers[i])
    ensures PartsOf(e)[i].Ok? ==> PartsOf(e)[i].value.hits == HuntsOf(e)[i]
  {
    var c := e.config.ciphers[i];
    PartSucceedsIff(e, c);
    if PartOf(e, c).Ok? {
      PartIsHunt(e, c);
    }
  }

  ghost predicate AreReady(e: Env, k: nat)
    requires k <= |e.config.ciphers|
  {
    forall i :: 0 <= i < k ==> Ready(e, e.config.ciphers[i])
  }

  lemma FirstParts(e: Env)
    requires e.suite.WellFormed()
    ensures forall i :: 0 <= i < |e.config.ciphers| ==> (PartsOf(e)[i].Ok? <==> Ready(e, e.config.ciphers[i]))
    ensures forall k :: 0 <= k <= |e.config.ciphers| ==>
      && (Unlimited(PartsOf(e), k).Ok? <==> AreReady(e, k))
      && (Unlimited(PartsOf(e), k).Ok? ==> Unlimited(PartsOf(e), k).value.hits == HitsOfFirst(e, k))
  {
    var ps, hunts := PartsOf(e), HuntsOf(e);
    forall i | 0 <= i < |ps|
      ensures ps[i].Ok? <==> Ready(e, e.config.ciphers[i])
      ensures ps[i].Ok? ==> ps[i].value.hits == hunts[i]
    {
      PartAt(e, i);
    }
    forall k | 0 <= k <= |ps|
      ensures Unlimited(ps, k).Ok? <==> forall i :: 0 <= i < k ==> ps[i].Ok?
      ensures Unlimited(ps, k).Ok? ==> Unlimited(ps, k).value.hits == Concat(hunts, k)
    {
      UnlimitedIsConcat(ps, hunts, k);
    }
  }

  /** Some oracle, or a tag that makes oracles unnecessary. */
  predicate HasJudge(e: Env) {
    e.oracles != [] || (e.config.mode == CipherMode.Gcm && e.config.tag.Some?)
  }

  /** The scan runs exactly the first j ciphers: all of them, or up to where the limit is first reached. */
  ghost predicate RunsTo(e: Env, j: nat) {
    && j <= |e.config.ciphers|
    && (forall i :: 0 <= i < j ==>
          Ready(e, e.config.ciphers[i]) && !LimitReached(e.config.maxHits, HitsOfFirst(e, i)))
    && (j == |e.config.ciphers| || LimitReached(e.config.maxHits, HitsOfFirst(e, j)))
  }

  lemma RunsToIsStop(e: Env, j: nat)
    requires e.suite.WellFormed()
    ensures RunsTo(e, j) <==> StopsAfter(PartsOf(e), e.config.maxHits, 0, j)
  {
    FirstParts(e);
  }

  /**
   * A scan succeeds if and only if the configuration is accepted, something can judge a key, and
   * every cipher up to where the limit on the hits is first reached is ready.
   */
  lemma ScanSucceedsIff(e: Env)
    requires e.suite.WellFormed()
    ensures Scanned(e).Ok? <==> Rejection(e.config).None? && HasJudge(e) && exists j :: RunsTo(e, j)
  {
    if Scanned(e).Ok? {
      var j := SearchStops(PartsOf(e), e.config.maxHits, 0);
      RunsToIsStop(e, j);
    }
    if j: nat :| RunsTo(e, j) {
      RunsToIsStop(e, j);
      StoppingSucceeds(PartsOf(e), e.config.maxHits, 0, j);
    }
  }

  /** What it reports are the hits of these ciphers, hunt after hunt, cut at the limit. */
  lemma ScanIsConcatenation(e: Env, j: nat)
    requires e.suite.WellFormed() && Scanned(e).Ok? && RunsTo(e, j)
    ensures Scanned(e).value.hits == CutAt(e.config.maxHits, HitsOfFirst(e, j))
  {
    RunsToIsStop(e, j);
    FirstParts(e);
    StoppingSucceeds(PartsOf(e), e.config.maxHits, 0, j);
  }

  /** With every cipher ready the scan succeeds under any limit; without a limit it needs every cipher ready. */
  lemma AllReadySucceeds(e: Env)
    requires e.suite.WellFormed() && Rejection(e.config).None? && HasJudge(e)
    ensures AreReady(e, |e.config.ciphers|) ==> Scanned(e).Ok?
    ensures e.config.maxHits == 0 && Scanned(e).Ok? ==> AreReady(e, |e.config.ciphers|)
  {
    FirstParts(e);
    if AreReady(e, |e.config.ciphers|) {
      var j := SomewhereStops(PartsOf(e), e.config.maxHits, 0);
      StoppingSucceeds(PartsOf(e), e.config.maxHits, 0, j);
    }
    NoLimitRunsAll(PartsOf(e), 0);
  }

  /**
   * Block mode: with an accepted configuration, oracles, and a ciphertext that is aligned for
   * every cipher whose key fits the dump, a scan without a limit succeeds exactly when the
   * fixed IV, if one is given, fits these ciphers. Under a limit it succeeds if it does.
   */
  lemma BlockScanSucceedsIff(e: Env)
    requires e.suite.WellFormed() && Rejection(e.config).None? && e.config.mode == Block && e.oracles != []
    requires forall i :: 0 <= i < |e.config.ciphers| ==> !e.config.ciphers[i].IsStream()
    requires e.ciphertext != []
    requires forall i :: 0 <= i < |e.config.ciphers| && e.config.ciphers[i].KeyLen() <= |e.dump| ==>
      Aligned(e, e.config.ciphers[i])
    ensures var fits := forall i :: 0 <= i < |e.config.ciphers| && e.config.ciphers[i].KeyLen() <= |e.dump| ==>
              IvFits(e, e.config.ciphers[i]);
      (fits ==> Scanned(e).Ok?) && (e.config.maxHits == 0 && Scanned(e).Ok? ==> fits)
  {
    AllReadySucceeds(e);
  }

  /**
   * A scan that fails says why: the configuration is rejected, nothing can judge a key, or the
   * first cipher that is not ready, which the limit did not keep it from, has this error.
   */
  lemma ScanFailsAt(e: Env) returns (j: nat)
    requires e.suite.WellFormed() && Scanned(e).Err?
    ensures Rejection(e.config).Some? ==> Scanned(e) == Err(Rejection(e.config).value)
    ensures Rejection(e.config).None? && !HasJudge(e) ==> Scanned(e) == Err(NoOracle)
    ensures Rejection(e.config).None? && HasJudge(e) ==>
      && j < |e.config.ciphers| && !Ready(e, e.config.ciphers[j])
      && AreReady(e, j)
      && (forall i :: 0 <= i <= j ==> !LimitReached(e.config.maxHits, HitsOfFirst(e, i)))
      && PartOf(e, e.config.ciphers[j]) == Err(Scanned(e).error)
  {
    j := 0;
    if Rejection(e.config).None? && HasJudge(e) {
      j := SearchFails(PartsOf(e), e.config.maxHits, 0);
      assert PartsOf(e)[j] == PartOf(e, e.config.ciphers[j]);
      FirstParts(e);
      assert AreReady(e, j);
      forall i | 0 <= i <= j
        ensures !LimitReached(e.config.maxHits, HitsOfFirst(e, i))
      {
        assert Unlimited(PartsOf(e), i).Ok?;
      }
    }
  }

  // ------------------------------------------------------------- outright

  /** The ciphertext of a message under one block cipher, in CBC with PKCS#7 padding. */
  function CbcCiphertext(c: BlockCipher, key: seq<byte>, iv: seq<byte>, msg: seq<byte>): seq<byte>
    requires 0 < c.blockLen < 256
  {
    Flatten(CbcEncrypt(c, key, iv, Chunks(Padding.Pkcs7Pad(msg, c.blockLen), c.blockLen)))
  }

  /** A scan in block mode for one cipher, over a dump with its key in it, with the IV of the ciphertext given. */
  ghost predicate IsCbcSetting(e: Env, c: CipherChoice, before: seq<byte>, key: seq<byte>, after: seq<byte>,
                               iv: seq<byte>, msg: seq<byte>)
  {
    && e.suite.WellFormed() && !c.IsStream() && e.suite.block(c).Usable(key)
    && e.config.ciphers == [c] && e.config.mode == Block && e.config.fixedIv == Some(iv)
    && e.config.nonce.None? && e.config.tag.None? && e.config.aad.None?
    && e.dump == before + key + after && |iv| == c.BlockLen() && e.oracles != []
    && e.ciphertext == CbcCiphertext(e.suite.block(c), key, iv, msg)
  }

  lemma CbcCiphertextBlocks(c: BlockCipher, key: seq<byte>, iv: seq<byte>, msg: seq<byte>)
    requires c.WellFormed() && c.blockLen < 256 && c.Usable(key) && |iv| == c.blockLen
    ensures var ct, ps := CbcCiphertext(c, key, iv, msg), Chunks(Padding.Pkcs7Pad(msg, c.blockLen), c.blockLen);
      && Chunks(ct, c.blockLen) == CbcEncrypt(c, key, iv, ps)
      && ct != [] && |ct| % c.blockLen == 0
  {
    var ps := Chunks(Padding.Pkcs7Pad(msg, c.blockLen), c.blockLen);
    CbcEncryptBlocks(c, key, iv, ps);
    BlockCompleteness.AtLeastOneBlock(msg, c.blockLen);
    ChunksFlatten(CbcEncrypt(c, key, iv, ps), c.blockLen);
    FlattenLength(CbcEncrypt(c, key, iv, ps), c.blockLen);
    DivModUnique(|ps| * c.blockLen, c.blockLen, |ps|, 0);
    PositiveMultiple(|ps|, c.blockLen);
  }

  /** In such a setting the scan succeeds, and the ciphertext is planted for its hunt. */
  lemma CbcSettingIsPlanted(e: Env, c: CipherChoice, before: seq<byte>, key: seq<byte>, after: seq<byte>,
                            iv: seq<byte>, msg: seq<byte>)
    requires IsCbcSetting(e, c, before, key, after, iv, msg)
    ensures Scanned(e).Ok? && BlockScan(e, 0)
    ensures BlockCompleteness.Planted(BlockTaskOf(e, 0), |before|, iv, msg)
    ensures BlockCompleteness.Padded(BlockTaskOf(e, 0), msg) != []
  {
    var b := e.suite.block(c);
    CbcCiphertextBlocks(b, key, iv, msg);
    AcceptedIff(e.config);
    AllReadySucceeds(e);
    BlockCompleteness.AnyMessageCanBePlanted(b, before, key, after, iv, msg, e.oracles, Some(iv));
    BlockCompleteness.AtLeastOneBlock(msg, b.blockLen);
    assert e.dump[|before|..|before| + |key|] == key;
  }

  /**
   * From the dump to the message, with nothing assumed of the scan: with the IV given, it succeeds,
   * and reports exactly the message at the offset of the key if and only if the oracles reject the
   * ECB reading and accept blocks 1..2, or the only block. A limit on the hits may cut it off.
   */
  lemma CbcScanOutright(e: Env, c: CipherChoice, before: seq<byte>, key: seq<byte>, after: seq<byte>,
                        iv: seq<byte>, msg: seq<byte>)
    requires IsCbcSetting(e, c, before, key, after, iv, msg)
    ensures Scanned(e).Ok? && BlockTaskOf(e, 0).Total() > |before|
    ensures BlockCompleteness.Padded(BlockTaskOf(e, 0), msg) != []
    ensures
      (exists h :: Accounted(e, 0, h) && h.mode == Cbc && h.keyOffset == |before|)
      <==> BlockCompleteness.Recognised(BlockTaskOf(e, 0), |before|, iv, msg)
    ensures forall h :: Accounted(e, 0, h) && h.mode == Cbc && h.keyOffset == |before| ==>
      h.key == key && h.iv == Some(iv) && h.plaintext == msg && h.padding == Some(Padding.Pkcs7)
  {
    CbcSettingIsPlanted(e, c, before, key, after, iv, msg);
    var t := BlockTaskOf(e, 0);
    ScanFindsCbcKeyIff(e, 0, |before|, iv, msg);
    if BlockCompleteness.Recognised(t, |before|, iv, msg) {
      BlockCompleteness.CbcCompleteness(t, |before|, iv, msg);
      BlockTheorems.HitsAreExact(t);
      assert e.dump[|before|..|before| + |key|] == key;
    }
  }

  /** Without a search for the IV and without a fixed one, no CBC hit reports one, and block 0 reads 0x3F throughout. */
  lemma NoIvIsReported(e: Env, p: nat, h: Hit)
    requires BlockScan(e, p) && Accounted(e, p, h) && h.mode == Cbc
    requires !e.config.scanIv && e.config.fixedIv.None?
    ensures h.iv.None? && h.ivOffset.None? && h.ivCandidates == [] && h.padding.Some?
    ensures var full, n := BlockTheorems.Full(BlockTaskOf(e, p), h), e.config.ciphers[p].BlockLen();
      n <= |full| && full[..n] == Padding.Repeat(0x3F, n)
  {
    BlockTaskOfIsValid(e, p, h);
    BlockTheorems.NoIvIff(BlockTaskOf(e, p), h);
  }

  lemma BlockTaskOfIsValid(e: Env, p: nat, h: Hit)
    requires BlockScan(e, p) && Accounted(e, p, h) && e.config.fixedIv.None?
    ensures BlockTaskOf(e, p).Valid()
  {
    BlockTheorems.HitsAreExact(BlockTaskOf(e, p));
  }
}
