/** What the hits of a whole scan mean, and which keys it cannot miss. */
module ScanTheorems {
  import opened Bytes
  import opened Config
  import opened CounterMode
  import opened Limited
  import opened Oracles
  import opened Report
  import opened Results
  import opened Scan
  import opened Windows
  import BlockCompleteness
  import BlockHunt
  import BlockTheorems
  import CipherList
  import StreamHunt

  // ---------------------------------------------------------------- the limit

  function WithLimit(e: Env, m: nat): Env {
    e.(config := e.config.(maxHits := m))
  }

  lemma PartsIgnoreLimit(e: Env, m: nat)
    ensures PartsOf(WithLimit(e, m)) == PartsOf(e)
    ensures Rejection(WithLimit(e, m).config) == Rejection(e.config)
  {
    forall i | 0 <= i < |e.config.ciphers|
      ensures PartOf(WithLimit(e, m), e.config.ciphers[i]) == PartOf(e, e.config.ciphers[i])
    {
      PartIgnoresLimit(e, m, e.config.ciphers[i]);
    }
  }

  lemma PartIgnoresLimit(e: Env, m: nat, c: CipherChoice)
    ensures PartOf(WithLimit(e, m), c) == PartOf(e, c)
  {}

  /** Whenever the scan without a limit succeeds, the scan with limit m > 0 succeeds with its first m hits. */
  lemma MaxHitsIsPrefix(e: Env, m: nat)
    requires e.config.maxHits == 0 && m > 0 && Scanned(e).Ok?
    ensures var all, limited := Scanned(e).value, Scanned(WithLimit(e, m));
            && limited.Ok?
            && limited.value.hits == all.hits[..Min(m, |all.hits|)]
            && limited.value.tried <= all.tried
  {
    NoLimitRunsAll(PartsOf(e), 0);
    PartsIgnoreLimit(e, m);
    LimitIsPrefix(PartsOf(e), m, 0);
  }

  // ---------------------------------------------------------------- order

  /** The hits of one cipher carry its label, at increasing offsets. */
  lemma PartIsOrdered(e: Env, c: CipherChoice)
    requires PartOf(e, c).Ok?
    ensures var hits := PartOf(e, c).value.hits;
            && (forall i :: 0 <= i < |hits| ==> hits[i].algo == c.Label())
            && (forall i, j :: 0 <= i < j < |hits| ==> hits[i].keyOffset < hits[j].keyOffset)
  {
    var hits := PartOf(e, c).value.hits;
    if c.IsStream() {
      StreamHunt.HitsAreExact(ChaChaTask(e, c).AsTask());
    } else if |e.dump| < c.KeyLen() {
    } else if e.config.mode == Block {
      BlockHitsAreLabelled(BlockTask(e, c, SplitBlocks(e.ciphertext, c.BlockLen()).value));
    } else {
      StreamHunt.HitsAreExact(CounterTask(e, c).AsTask());
    }
    forall i | 0 <= i < |hits|
      ensures hits[i].algo == c.Label()
    {
      assert hits[i] in hits;
    }
  }

  lemma BlockHitsAreLabelled(t: BlockHunt.Task)
    ensures forall h :: h in BlockHunt.Hits(t) ==> h.algo == t.algo
    ensures forall i, j :: 0 <= i < j < |BlockHunt.Hits(t)| ==>
      BlockHunt.Hits(t)[i].keyOffset < BlockHunt.Hits(t)[j].keyOffset
  {
    BlockTheorems.HitsAreExact(t);
  }

  ghost predicate DistinctCiphers(cs: seq<CipherChoice>) {
    forall i, j :: 0 <= i < j < |cs| ==> cs[i] != cs[j]
  }

  /** Hit h belongs to one of the first k ciphers. */
  ghost predicate FromFirst(cs: seq<CipherChoice>, h: Hit, k: nat)
    requires k <= |cs|
  {
    exists p :: 0 <= p < k && h.algo == cs[p].Label()
  }

  /** g precedes h: an earlier cipher, or the same one at a smaller offset. */
  ghost predicate Precedes(cs: seq<CipherChoice>, g: Hit, h: Hit) {
    exists p, q :: 0 <= p <= q < |cs| && g.algo == cs[p].Label() && h.algo == cs[q].Label()
      && (p == q ==> g.keyOffset < h.keyOffset)
  }

  lemma LabelsDiffer(a: CipherChoice, b: CipherChoice)
    ensures a.Label() == b.Label() <==> a == b
  {
    assert |"aes-128"| == |"aes-192"| == |"aes-256"| == 7;
    assert "aes-128"[4..] == "128" && "aes-192"[4..] == "192" && "aes-256"[4..] == "256";
    assert "128"[1] == '2' && "192"[1] == '9' && "256"[1] == '5';
    assert "des"[0] == 'd' && "sm4"[0] == 's';
    assert "3des-ede3"[0] == '3' && "xchacha20"[0] == 'x';
  }

  /** Each part carries its cipher's label at increasing offsets. */
  ghost predicate Labelled(cs: seq<CipherChoice>, ps: Parts) {
    && |cs| == |ps|
    && forall k :: 0 <= k < |ps| && ps[k].Ok? ==>
         && (forall i :: 0 <= i < |ps[k].value.hits| ==> ps[k].value.hits[i].algo == cs[k].Label())
         && (forall i, j :: 0 <= i < j < |ps[k].value.hits| ==>
               ps[k].value.hits[i].keyOffset < ps[k].value.hits[j].keyOffset)
  }

  lemma PartsAreLabelled(e: Env)
    ensures Labelled(e.config.ciphers, PartsOf(e))
  {
    forall k | 0 <= k < |e.config.ciphers| && PartOf(e, e.config.ciphers[k]).Ok?
      ensures var hits := PartOf(e, e.config.ciphers[k]).value.hits;
        && (forall i :: 0 <= i < |hits| ==> hits[i].algo == e.config.ciphers[k].Label())
        && (forall i, j :: 0 <= i < j < |hits| ==> hits[i].keyOffset < hits[j].keyOffset)
    {
      PartIsOrdered(e, e.config.ciphers[k]);
    }
  }

  /** Hits are ordered by cipher, then by offset. */
  lemma {:induction false} HitsAreOrdered(cs: seq<CipherChoice>, ps: Parts, k: nat)
    requires Labelled(cs, ps) && k <= |ps| && Unlimited(ps, k).Ok?
    ensures var hits := Unlimited(ps, k).value.hits;
            && (forall i :: 0 <= i < |hits| ==> FromFirst(cs, hits[i], k))
            && (forall i, j :: 0 <= i < j < |hits| ==> Precedes(cs, hits[i], hits[j]))
  {
    if k != 0 {
      HitsAreOrdered(cs, ps, k - 1);
      var before, part, hits := Unlimited(ps, k - 1).value.hits, ps[k - 1].value.hits, Unlimited(ps, k).value.hits;
      assert hits == before + part;
      forall i | 0 <= i < |hits|
        ensures FromFirst(cs, hits[i], k)
      {
        if i < |before| {
          assert FromFirst(cs, before[i], k - 1);
        } else {
          assert part[i - |before|].algo == cs[k - 1].Label();
        }
      }
      forall i, j | 0 <= i < j < |hits|
        ensures Precedes(cs, hits[i], hits[j])
      {
        if j < |before| {
          assert Precedes(cs, before[i], before[j]);
        } else if i < |before| {
          assert FromFirst(cs, before[i], k - 1);
          assert part[j - |before|].algo == cs[k - 1].Label();
        } else {
          assert part[i - |before|].keyOffset < part[j - |before|].keyOffset;
          assert part[i - |before|].algo == cs[k - 1].Label() && part[j - |before|].algo == cs[k - 1].Label();
        }
      }
    }
  }

  /** What the parts behind a successful scan are: all those the scan got to, under whatever limit. */
  lemma ScanStops(e: Env) returns (j: nat)
    requires Scanned(e).Ok?
    ensures StopsAfter(PartsOf(e), e.config.maxHits, 0, j)
    ensures var all := Unlimited(PartsOf(e), j).value;
            && Scanned(e).value.hits == CutAt(e.config.maxHits, all.hits)
            && Scanned(e).value.hits <= all.hits
            && Scanned(e).value.tried == all.tried
  {
    j := SearchStops(PartsOf(e), e.config.maxHits, 0);
  }

  /** The hits of a successful scan: ordered, and with distinct ciphers at most one per cipher and offset. */
  lemma ScanIsOrdered(e: Env)
    requires Scanned(e).Ok?
    ensures var hits, cs := Scanned(e).value.hits, e.config.ciphers;
      forall i, j :: 0 <= i < j < |hits| ==>
        && Precedes(cs, hits[i], hits[j])
        && (DistinctCiphers(cs) ==> hits[i].algo != hits[j].algo || hits[i].keyOffset < hits[j].keyOffset)
  {
    var hits, cs := Scanned(e).value.hits, e.config.ciphers;
    var k := ScanStops(e);
    PartsAreLabelled(e);
    HitsAreOrdered(cs, PartsOf(e), k);
    var all := Unlimited(PartsOf(e), k).value.hits;
    assert forall i :: 0 <= i < |hits| ==> hits[i] == all[i];
    forall i, j | 0 <= i < j < |hits| && DistinctCiphers(cs)
      ensures hits[i].algo != hits[j].algo || hits[i].keyOffset < hits[j].keyOffset
    {
      assert Precedes(cs, hits[i], hits[j]);
      DistinctOrder(cs, hits[i], hits[j]);
    }
  }

  lemma DistinctOrder(cs: seq<CipherChoice>, g: Hit, h: Hit)
    requires DistinctCiphers(cs) && Precedes(cs, g, h)
    ensures g.algo != h.algo || g.keyOffset < h.keyOffset
  {
    var p, q :| 0 <= p <= q < |cs| && g.algo == cs[p].Label() && h.algo == cs[q].Label()
      && (p == q ==> g.keyOffset < h.keyOffset);
    LabelsDiffer(cs[p], cs[q]);
  }

  // ------------------------------------------------- whole-scan consequences

  /** The number of windows of each cipher's key length; 0 when the key is longer than the dump. */
  function WindowCounts(e: Env): (ns: seq<nat>)
    ensures |ns| == |e.config.ciphers|
  {
    seq(|e.config.ciphers|,
        i requires 0 <= i < |e.config.ciphers| => WindowCount(|e.dump|, e.config.ciphers[i].KeyLen()))
  }

  lemma PartCount(e: Env, c: CipherChoice)
    requires PartOf(e, c).Ok?
    ensures PartOf(e, c).value.tried == WindowCount(|e.dump|, c.KeyLen())
  {}

  /**
   * Every window of every cipher the scan gets to is tried once: those before the limit on the
   * hits is first reached, all of them without one.
   */
  lemma TriedIsSum(e: Env) returns (j: nat)
    requires Scanned(e).Ok?
    ensures StopsAfter(PartsOf(e), e.config.maxHits, 0, j)
    ensures e.config.maxHits == 0 ==> j == |e.config.ciphers|
    ensures Scanned(e).value.tried == SumUpTo(WindowCounts(e), j)
  {
    j := ScanStops(e);
    forall i | 0 <= i < |e.config.ciphers| && PartsOf(e)[i].Ok?
      ensures PartsOf(e)[i].value.tried == WindowCounts(e)[i]
    {
      PartCount(e, e.config.ciphers[i]);
    }
    TriedAddsUp(PartsOf(e), WindowCounts(e), j);
  }

  lemma StopsOnce(ps: Parts, maxHits: nat, i: nat, j: nat)
    requires StopsAfter(ps, maxHits, 0, i) && StopsAfter(ps, maxHits, 0, j)
    ensures i == j
  {}

  /**
   * The count a scan reports under every interleaving: however the windows of each cipher are
   * split among workers and their increments interleave, the shared counter ends at the
   * windows tried, mod 2^64.
   */
  lemma ScanCountsUnderInterleaving(e: Env, j: nat, runs: seq<Run>, counters: seq<nat>)
    requires Scanned(e).Ok? && StopsAfter(PartsOf(e), e.config.maxHits, 0, j)
    requires AreRuns(runs, counters, WindowCounts(e)[..j])
    ensures counters[j] == Scanned(e).value.tried % U64
  {
    var i := TriedIsSum(e);
    StopsOnce(PartsOf(e), e.config.maxHits, i, j);
    RunsAddUp(runs, counters, WindowCounts(e)[..j], j);
    SumOfPrefix(WindowCounts(e), j, j);
  }

  lemma {:induction false} SumOfPrefix(ns: seq<nat>, j: nat, k: nat)
    requires k <= j <= |ns|
    ensures SumUpTo(ns[..j], k) == SumUpTo(ns, k)
  {
    if k != 0 {
      SumOfPrefix(ns, j, k - 1);
    }
  }

  /** Every hit is one of a cipher asked for, whatever the limit. */
  lemma HitOrigin(e: Env, h: Hit) returns (c: CipherChoice)
    requires Scanned(e).Ok? && h in Scanned(e).value.hits
    ensures c in e.config.ciphers && PartOf(e, c).Ok? && h in PartOf(e, c).value.hits && h.algo == c.Label()
  {
    var j := ScanStops(e);
    var p := HitHasOrigin(PartsOf(e), j, h);
    c := e.config.ciphers[p];
    assert PartsOf(e)[p] == PartOf(e, c);
    PartIsOrdered(e, c);
  }

  // -------------------------------------------------- every hit of a scan

  /** The ciphertext as the blocks of a cipher. */
  function BlocksFor(e: Env, c: CipherChoice): BlockHunt.Task
    requires !c.IsStream()
  {
    BlockTask(e, c, Chunks(e.ciphertext, c.BlockLen()))
  }

  /** The cipher is run as a keystream. */
  predicate IsKeystream(e: Env, c: CipherChoice) {
    c.IsStream() || e.config.mode != Block
  }

  function StreamTask(e: Env, c: CipherChoice): StreamHunt.Task {
    if c.IsStream() then ChaChaTask(e, c).AsTask() else CounterTask(e, c).AsTask()
  }

  /** A cipher's part of the scan is its hunt. */
  lemma PartIsHunt(e: Env, c: CipherChoice)
    requires e.suite.WellFormed() && PartOf(e, c).Ok?
    ensures IsKeystream(e, c) ==> PartOf(e, c).value.hits == StreamHunt.Hits(StreamTask(e, c))
    ensures !IsKeystream(e, c) ==> PartOf(e, c).value.hits == BlockHunt.Hits(BlocksFor(e, c))
  {}

  lemma StreamTaskIsValid(e: Env, c: CipherChoice)
    requires e.suite.WellFormed() && IsKeystream(e, c) && e.ciphertext != []
    ensures StreamTask(e, c).Valid() && StreamTask(e, c).ciphertext == e.ciphertext
    ensures e.config.tag.None? ==> StreamTask(e, c).open.None?
    ensures e.config.tag.Some? && e.config.mode != CipherMode.Ctr ==> StreamTask(e, c).open.Some?
  {}

  lemma BlocksAreValid(e: Env, c: CipherChoice)
    requires e.suite.WellFormed() && !IsKeystream(e, c) && PartOf(e, c).Ok? && PartOf(e, c).value.hits != []
    ensures BlocksFor(e, c).Valid() && Flatten(BlocksFor(e, c).blocks) == e.ciphertext
  {
    BlockTaskIsValid(e, c);
  }

  /** Every hit of a scan with a block cipher in block mode is a witness over the whole ciphertext. */
  lemma BlockScanHitsAreWitnesses(e: Env, h: Hit) returns (c: CipherChoice)
    requires e.suite.WellFormed() && Scanned(e).Ok? && h in Scanned(e).value.hits
    ensures c in e.config.ciphers && h.algo == c.Label()
    ensures !IsKeystream(e, c) ==>
      && BlocksFor(e, c).Valid() && Flatten(BlocksFor(e, c).blocks) == e.ciphertext
      && BlockTheorems.Witness(BlocksFor(e, c), h)
  {
    c := HitOrigin(e, h);
    PartIsHunt(e, c);
    if !IsKeystream(e, c) {
      BlocksAreValid(e, c);
      BlockTheorems.EveryHitIsWitness(BlocksFor(e, c), h);
    }
  }

  lemma StreamHuntHitIsWitness(e: Env, c: CipherChoice, h: Hit) returns (i: nat)
    requires e.suite.WellFormed() && IsKeystream(e, c) && Drivable(e.config, c) && e.config.tag.None?
    requires e.ciphertext != [] && h in StreamHunt.Hits(StreamTask(e, c))
    ensures e.config.nonce.Some? && Encrypted(e, c, h.key, h.plaintext) == e.ciphertext
    ensures h.keyOffset + c.KeyLen() <= |e.dump| && h.key == e.dump[h.keyOffset..h.keyOffset + c.KeyLen()]
    ensures StreamHunt.JudgedBy(StreamTask(e, c), h, i)
  {
    StreamTaskIsValid(e, c);
    i := StreamHunt.StreamHitIsWitness(StreamTask(e, c), h);
    KeystreamIsEncryption(e, c, h.key, h.plaintext);
  }

  /** Every hit of a scan without a tag, with a cipher run as a keystream, encrypts back to the whole ciphertext. */
  lemma StreamScanHitsAreWitnesses(e: Env, h: Hit) returns (c: CipherChoice, i: nat)
    requires e.suite.WellFormed() && Scanned(e).Ok? && h in Scanned(e).value.hits && e.config.tag.None?
    ensures c in e.config.ciphers && h.algo == c.Label()
    ensures IsKeystream(e, c) ==>
      && e.config.nonce.Some? && Encrypted(e, c, h.key, h.plaintext) == e.ciphertext
      && h.keyOffset + c.KeyLen() <= |e.dump| && h.key == e.dump[h.keyOffset..h.keyOffset + c.KeyLen()]
      && StreamHunt.JudgedBy(StreamTask(e, c), h, i)
  {
    c := HitOrigin(e, h);
    PartIsHunt(e, c);
    AcceptedIsDrivable(e.config);
    i := 0;
    if IsKeystream(e, c) {
      StreamHunt.HitsAreExact(StreamTask(e, c));
      i := StreamHuntHitIsWitness(e, c, h);
    }
  }

  // --------------------------------------------------- what a scan cannot miss

  // Under a limit on the hits, "reported" means reported unless the limit is used up before.

  /** All hits of one cipher. */
  function HuntOf(e: Env, c: CipherChoice): seq<Hit> {
    if IsKeystream(e, c) then StreamHunt.Hits(StreamTask(e, c)) else BlockHunt.Hits(BlocksFor(e, c))
  }

  lemma HuntIsLabelled(e: Env, c: CipherChoice, h: Hit)
    requires h in HuntOf(e, c)
    ensures h.algo == c.Label()
  {
    if IsKeystream(e, c) {
      StreamHunt.HitsAreExact(StreamTask(e, c));
    } else {
      BlockHitsAreLabelled(BlocksFor(e, c));
    }
  }

  /** The limit on the hits is used up by hits that all precede h. */
  ghost predicate CutOff(e: Env, h: Hit)
    requires Scanned(e).Ok?
  {
    && 0 < e.config.maxHits == |Scanned(e).value.hits|
    && forall g :: g in Scanned(e).value.hits ==> Precedes(e.config.ciphers, g, h)
  }

  ghost predicate IsHitOf(e: Env, p: nat, h: Hit)
    requires Scanned(e).Ok? && p < |e.config.ciphers|
  {
    h in Scanned(e).value.hits && h.algo == e.config.ciphers[p].Label()
  }

  /** h is a hit of the p-th cipher that the scan reports, unless the limit cuts it off. */
  ghost predicate Accounted(e: Env, p: nat, h: Hit)
    requires Scanned(e).Ok? && p < |e.config.ciphers|
  {
    h in HuntOf(e, e.config.ciphers[p]) && (IsHitOf(e, p, h) || CutOff(e, h))
  }

  /** A member of a list is in a prefix of it, or behind all of the prefix. */
  lemma InOrBehindPrefix(cs: seq<CipherChoice>, all: seq<Hit>, k: nat, h: Hit)
    requires k <= |all| && h in all
    requires forall i, j :: 0 <= i < j < |all| ==> Precedes(cs, all[i], all[j])
    ensures h in all[..k] || forall g :: g in all[..k] ==> Precedes(cs, g, h)
  {
    var x :| 0 <= x < |all| && all[x] == h;
    if x < k {
      assert all[..k][x] == h;
    }
  }

  /** Hits of earlier ciphers precede those of the p-th. */
  lemma EarlierPrecede(cs: seq<CipherChoice>, all: seq<Hit>, hits: seq<Hit>, j: nat, p: nat, h: Hit)
    requires j <= p < |cs| && h.algo == cs[p].Label()
    requires hits <= all && forall i :: 0 <= i < |all| ==> FromFirst(cs, all[i], j)
    ensures forall g :: g in hits ==> Precedes(cs, g, h)
  {
    forall g | g in hits
      ensures Precedes(cs, g, h)
    {
      var y :| 0 <= y < |hits| && hits[y] == g;
      assert all[y] == g;
      var q :| 0 <= q < j && g.algo == cs[q].Label();
      assert q != p;
    }
  }

  /** The scan got to the p-th cipher: its hits are among those the limit may cut. */
  lemma GotTo(e: Env, p: nat, j: nat, h: Hit)
    requires e.suite.WellFormed() && p < j <= |e.config.ciphers| && Unlimited(PartsOf(e), j).Ok?
    requires h in HuntOf(e, e.config.ciphers[p])
    ensures h in Unlimited(PartsOf(e), j).value.hits
  {
    PartIsIncluded(PartsOf(e), j, p);
    assert PartsOf(e)[p] == PartOf(e, e.config.ciphers[p]);
    PartIsHunt(e, e.config.ciphers[p]);
  }

  /** No hit of a cipher is missed: under any limit it is reported, or the limit is used up before it. */
  lemma ReportedOrCutOff(e: Env, p: nat, h: Hit)
    requires e.suite.WellFormed() && Scanned(e).Ok? && p < |e.config.ciphers|
    requires h in HuntOf(e, e.config.ciphers[p])
    ensures h in Scanned(e).value.hits || CutOff(e, h)
  {
    var cs, m := e.config.ciphers, e.config.maxHits;
    var j := ScanStops(e);
    var all := Unlimited(PartsOf(e), j).value.hits;
    PartsAreLabelled(e);
    HitsAreOrdered(cs, PartsOf(e), j);
    if p < j {
      GotTo(e, p, j, h);
      if m != 0 {
        InOrBehindPrefix(cs, all, Min(m, |all|), h);
        assert |all| <= m ==> all[..Min(m, |all|)] == all;
      }
    } else {
      HuntIsLabelled(e, cs[p], h);
      EarlierPrecede(cs, all, Scanned(e).value.hits, j, p, h);
    }
  }

  /**
   * The hits of one cipher in a scan that succeeds, under any limit: every reported hit with its
   * label is one of them, and every one of them is reported unless the limit cuts it off. With
   * distinct ciphers none is both, so the reported ones are exactly those not cut off.
   */
  lemma ScanHitsOf(e: Env, p: nat)
    requires e.suite.WellFormed() && Scanned(e).Ok? && p < |e.config.ciphers|
    ensures forall h :: IsHitOf(e, p, h) ==> Accounted(e, p, h)
    ensures forall h :: h in HuntOf(e, e.config.ciphers[p]) <==> Accounted(e, p, h)
    ensures DistinctCiphers(e.config.ciphers) ==>
      forall h :: IsHitOf(e, p, h) <==> h in HuntOf(e, e.config.ciphers[p]) && !CutOff(e, h)
  {
    var c, cs := e.config.ciphers[p], e.config.ciphers;
    forall h | IsHitOf(e, p, h)
      ensures h in HuntOf(e, c)
      ensures DistinctCiphers(cs) ==> !CutOff(e, h)
    {
      var d := HitOrigin(e, h);
      LabelsDiffer(c, d);
      PartIsHunt(e, c);
      if DistinctCiphers(cs) && Precedes(cs, h, h) {
        DistinctOrder(cs, h, h);
      }
    }
    forall h | h in HuntOf(e, c)
      ensures IsHitOf(e, p, h) || CutOff(e, h)
    {
      ReportedOrCutOff(e, p, h);
      HuntIsLabelled(e, c, h);
    }
  }

  /** A scan that succeeds and has the p-th cipher run in block mode. */
  ghost predicate BlockScan(e: Env, p: nat) {
    && e.suite.WellFormed() && Scanned(e).Ok?
    && p < |e.config.ciphers| && !IsKeystream(e, e.config.ciphers[p])
  }

  /** The block hunt of the p-th cipher. */
  function BlockTaskOf(e: Env, p: nat): BlockHunt.Task
    requires p < |e.config.ciphers| && !e.config.ciphers[p].IsStream()
  {
    BlocksFor(e, e.config.ciphers[p])
  }

  /**
   * CBC completeness end to end: the key of a planted ciphertext is reported as CBC, with the
   * p-th cipher and at its offset, iff the oracles recognise the message.
   */
  lemma ScanFindsCbcKeyIff(e: Env, p: nat, o: nat, iv: seq<byte>, msg: seq<byte>)
    requires BlockScan(e, p) && BlockCompleteness.Planted(BlockTaskOf(e, p), o, iv, msg)
    ensures BlockCompleteness.Padded(BlockTaskOf(e, p), msg) != []
    ensures (exists h :: Accounted(e, p, h) && h.mode == Cbc && h.keyOffset == o)
      <==> BlockCompleteness.Recognised(BlockTaskOf(e, p), o, iv, msg)
  {
    ScanHitsOf(e, p);
    BlockCompleteness.CbcFoundIff(BlockTaskOf(e, p), o, iv, msg);
  }

  /** A recognised message over a planted ciphertext. */
  ghost predicate CbcScan(e: Env, p: nat, o: nat, iv: seq<byte>, msg: seq<byte>) {
    && BlockScan(e, p)
    && BlockCompleteness.Planted(BlockTaskOf(e, p), o, iv, msg)
    && BlockCompleteness.Padded(BlockTaskOf(e, p), msg) != []
    && BlockCompleteness.Recognised(BlockTaskOf(e, p), o, iv, msg)
  }

  /** With the right fixed IV the scan reports exactly the message, at the key's offset. */
  lemma ScanFindsCbcMessage(e: Env, p: nat, o: nat, iv: seq<byte>, msg: seq<byte>)
    requires CbcScan(e, p, o, iv, msg)
    requires e.config.fixedIv == Some(iv)
    ensures exists h ::
      Accounted(e, p, h) && h.mode == Cbc && h.keyOffset == o && h.iv == Some(iv) && h.plaintext == msg
  {
    ScanHitsOf(e, p);
    BlockCompleteness.CbcCompleteness(BlockTaskOf(e, p), o, iv, msg);
    assert Accounted(e, p, BlockHunt.HitAt(BlockTaskOf(e, p), o).value);
  }

  /** Without it the message is right from the second block on. */
  lemma ScanFindsCbcTail(e: Env, p: nat, o: nat, iv: seq<byte>, msg: seq<byte>)
    requires CbcScan(e, p, o, iv, msg) && |BlockTaskOf(e, p).blocks| >= 2
    ensures var n := e.config.ciphers[p].BlockLen();
      n <= |msg| && exists h ::
        (Accounted(e, p, h) && h.mode == Cbc && h.keyOffset == o && |h.plaintext| == |msg|
         && h.plaintext[n..] == msg[n..])
  {
    var t := BlockTaskOf(e, p);
    ScanHitsOf(e, p);
    BlockCompleteness.CbcCompleteness(t, o, iv, msg);
    BlockTheorems.Block0IsConsistent(t, t.Key(o));
    assert Accounted(e, p, BlockHunt.HitAt(t, o).value);
  }

  /** IV pinning end to end: an IV that stands out in the dump is reported, with exactly the message. */
  lemma ScanPinsIv(e: Env, p: nat, o: nat, iv: seq<byte>, msg: seq<byte>, ivOffset: nat)
    requires CbcScan(e, p, o, iv, msg) && e.config.fixedIv.None? && e.config.scanIv
    requires BlockCompleteness.IvStandsOut(BlockTaskOf(e, p), o, iv, msg, ivOffset)
    ensures exists h ::
      (Accounted(e, p, h) && h.mode == Cbc && h.keyOffset == o
       && h.iv == Some(iv) && h.ivOffset == Some(ivOffset) && h.plaintext == msg)
  {
    var t := BlockTaskOf(e, p);
    ScanHitsOf(e, p);
    BlockCompleteness.IvPinning(t, o, iv, msg, ivOffset);
    BlockCompleteness.CbcCompleteness(t, o, iv, msg);
    assert Accounted(e, p, BlockHunt.HitAt(t, o).value);
  }

  /** ECB completeness end to end. */
  lemma ScanFindsEcbMessage(e: Env, p: nat, o: nat, msg: seq<byte>)
    requires BlockScan(e, p) && BlockCompleteness.EcbPlanted(BlockTaskOf(e, p), o, msg)
    requires BestMatch(e.oracles, BlockHunt.HeadBytes(BlockCompleteness.Padded(BlockTaskOf(e, p), msg))).Some?
    ensures exists h :: Accounted(e, p, h) && h.mode == Ecb && h.keyOffset == o && h.plaintext == msg
  {
    ScanHitsOf(e, p);
    BlockCompleteness.EcbCompleteness(BlockTaskOf(e, p), o, msg);
    assert Accounted(e, p, BlockHunt.HitAt(BlockTaskOf(e, p), o).value);
  }

  /** A scan that succeeds and has the p-th cipher run as a keystream; its key length fits the dump at o. */
  ghost predicate StreamScan(e: Env, p: nat, o: nat) {
    && e.suite.WellFormed() && Scanned(e).Ok? && e.ciphertext != []
    && p < |e.config.ciphers| && IsKeystream(e, e.config.ciphers[p])
    && o + e.config.ciphers[p].KeyLen() <= |e.dump|
  }

  function KeyAt(e: Env, p: nat, o: nat): seq<byte>
    requires p < |e.config.ciphers| && o + e.config.ciphers[p].KeyLen() <= |e.dump|
  {
    e.dump[o..o + e.config.ciphers[p].KeyLen()]
  }

  /** The message encrypted under the key with the configured nonce: with the ChaCha keystream, or in CTR or GCM. */
  function Encrypted(e: Env, c: CipherChoice, key: seq<byte>, msg: seq<byte>): seq<byte>
    requires e.config.nonce.Some?
  {
    if c.IsStream() then XorStream(e.suite.stream(c).keystream(key, e.config.nonce.value), msg)
    else Crypt(e.suite.block(c), key, e.config.nonce.value, e.config.mode, msg)
  }

  /** Whether the cipher takes the key. */
  predicate Takes(e: Env, c: CipherChoice, key: seq<byte>) {
    c.IsStream() || e.suite.block(c).accepts(key)
  }

  /** What the tag opens to: key, nonce, ciphertext, tag and associated data in this order. */
  function Opened(e: Env, c: CipherChoice, key: seq<byte>): Option<seq<byte>>
    requires e.config.nonce.Some? && e.config.tag.Some?
  {
    var open := if c.IsStream() then e.suite.poly1305(c) else e.suite.gcm;
    var aad := if e.config.aad.Some? then e.config.aad.value else [];
    open(key, e.config.nonce.value, e.ciphertext, e.config.tag.value, aad)
  }

  lemma KeystreamIsDrivable(e: Env, p: nat, o: nat)
    requires StreamScan(e, p, o)
    ensures e.config.nonce.Some? && Drivable(e.config, e.config.ciphers[p])
    ensures var c, t := e.config.ciphers[p], StreamTask(e, e.config.ciphers[p]);
      && t.Valid() && t.ciphertext == e.ciphertext && t.oracles == e.oracles
      && o < t.Total() && t.Key(o) == KeyAt(e, p, o) && t.verifyLen == Min(32, |e.ciphertext|)
      && (e.config.tag.None? ==> t.open.None?)
      && (e.config.tag.Some? ==> t.open.Some? && forall key :: t.open.value(key) == Opened(e, c, key))
  {
    AcceptedIsDrivable(e.config);
    StreamTaskIsValid(e, e.config.ciphers[p]);
  }

  lemma KeystreamIsEncryption(e: Env, c: CipherChoice, key: seq<byte>, msg: seq<byte>)
    requires e.suite.WellFormed() && IsKeystream(e, c) && Drivable(e.config, c)
    ensures |key| == c.KeyLen() ==> (StreamTask(e, c).accepts(key) <==> Takes(e, c, key))
    ensures XorStream(StreamTask(e, c).keystream(key), msg) == Encrypted(e, c, key, msg)
  {}

  /**
   * Keystream completeness end to end, without a tag: the key a message was encrypted under is
   * reported, with exactly the message, iff an oracle accepts its first 32 bytes.
   */
  lemma ScanFindsStreamMessageIff(e: Env, p: nat, o: nat, msg: seq<byte>)
    requires StreamScan(e, p, o) && e.config.tag.None? && e.config.nonce.Some?
    requires Takes(e, e.config.ciphers[p], KeyAt(e, p, o))
    requires e.ciphertext == Encrypted(e, e.config.ciphers[p], KeyAt(e, p, o), msg)
    ensures (exists h :: Accounted(e, p, h) && h.keyOffset == o)
      <==> BestMatch(e.oracles, msg[..Min(32, |msg|)]).Some?
    ensures forall h :: Accounted(e, p, h) && h.keyOffset == o ==> h.plaintext == msg && h.key == KeyAt(e, p, o)
  {
    KeystreamIsDrivable(e, p, o);
    KeystreamIsEncryption(e, e.config.ciphers[p], KeyAt(e, p, o), msg);
    ScanHitsOf(e, p);
    StreamHunt.StreamFoundIff(StreamTask(e, e.config.ciphers[p]), o, msg);
  }

  /** With a tag: exactly the keys the tag verifies are reported, with what they open to. */
  lemma ScanReportsVerifiedKeys(e: Env, p: nat, o: nat)
    requires StreamScan(e, p, o) && e.config.tag.Some? && e.config.nonce.Some?
    ensures var shown := Opened(e, e.config.ciphers[p], KeyAt(e, p, o));
      && ((exists h :: Accounted(e, p, h) && h.keyOffset == o) <==> shown.Some?)
      && (forall h :: Accounted(e, p, h) && h.keyOffset == o ==> Some(h.plaintext) == shown)
  {
    KeystreamIsDrivable(e, p, o);
    ScanHitsOf(e, p);
    StreamHunt.TaggedHitsAreVerified(StreamTask(e, e.config.ciphers[p]), o);
  }

  // ------------------------------------------------------ the cipher list `all`

  /** A list with the token `all` is accepted, yet no scan with the ciphers it selects ever runs. */
  lemma AllCannotBeScanned(e: Env, spec: string, i: nat)
    requires i < |CipherList.Parts(spec)|
    requires CipherList.ReadToken(CipherList.Parts(spec)[i]) == CipherList.Token("all", Block)
    requires CipherList.Parsed(spec).Ok? && e.config.ciphers == CipherList.Parsed(spec).value.ciphers
    ensures Scanned(e) == Err(StreamMixedWithBlock)
  {
    CipherList.AllSelectsEverything(spec, i);
    MixedIffRejected(e.config);
    assert CipherList.All()[0] == Aes128 && CipherList.All()[6] == ChaCha20;
    assert Aes128 in e.config.ciphers && ChaCha20 in e.config.ciphers;
  }
}
