/** The whole scan: validation, one hunt per cipher, one list of hits and one counter. */
module Scan {
  import opened Bytes
  import opened Ciphers
  import opened Config
  import opened CounterMode
  import opened Limited
  import opened Oracles
  import opened Report
  import opened Results
  import opened Windows
  import BlockHunt
  import StreamHunt

  /** The foreign ciphers. */
  datatype Suite = Suite(
    block: CipherChoice -> BlockCipher, stream: CipherChoice -> StreamHunt.StreamCipher,
    gcm: StreamHunt.Opener, poly1305: CipherChoice -> StreamHunt.Opener)
  {
    ghost predicate WellFormed() {
      && (forall c: CipherChoice :: !c.IsStream() ==>
            block(c).WellFormed() && block(c).keyLen == c.KeyLen() && block(c).blockLen == c.BlockLen())
      && (forall c: CipherChoice :: c.IsStream() ==> stream(c).nonceLen == c.NonceLen())
    }

    /** `adapter`; the source has no block adapter for stream ciphers. */
    function Adapter(c: CipherChoice): BlockCipher
      requires !c.IsStream()
    {
      block(c)
    }

    /** `stream_adapter`; the source has none for block ciphers. */
    function StreamAdapter(c: CipherChoice): StreamHunt.StreamCipher
      requires c.IsStream()
    {
      stream(c)
    }
  }

  datatype Env = Env(
    suite: Suite, dump: seq<byte>, ciphertext: seq<byte>, oracles: seq<Oracle>, config: ScanConfig)

  /** The hits of one cipher and the number of windows tried. */
  type Part = Found<Hit>

  type Parts = seq<Result<Part, Error>>

  // -------------------------------------------------------- specification

  function SplitBlocks(ciphertext: seq<byte>, block: nat): Result<seq<seq<byte>>, Error>
    requires 0 < block
  {
    if ciphertext == [] then Err(EmptyCiphertext)
    else if |ciphertext| % block != 0 then Err(Misaligned(|ciphertext|, block))
    else Ok(Chunks(ciphertext, block))
  }

  function OrEmpty(o: Option<seq<byte>>): seq<byte> {
    if o.Some? then o.value else []
  }

  function BlockTask(e: Env, c: CipherChoice, blocks: seq<seq<byte>>): BlockHunt.Task
    requires !c.IsStream()
  {
    BlockHunt.Task(e.dump, blocks, e.suite.Adapter(c), e.oracles, e.config.scanIv, e.config.fixedIv, c.Label())
  }

  function CounterTask(e: Env, c: CipherChoice): StreamHunt.CounterHunt
    requires !c.IsStream()
  {
    StreamHunt.CounterHunt(e.dump, e.ciphertext, e.suite.Adapter(c), e.oracles, e.config.mode,
                           OrEmpty(e.config.nonce), e.config.tag, OrEmpty(e.config.aad), e.suite.gcm, c.Label())
  }

  function ChaChaTask(e: Env, c: CipherChoice): StreamHunt.ChaChaHunt
    requires c.IsStream()
  {
    StreamHunt.ChaChaHunt(e.dump, e.ciphertext, e.suite.StreamAdapter(c), e.oracles,
                          OrEmpty(e.config.nonce), e.config.tag, OrEmpty(e.config.aad), e.suite.poly1305(c),
                          c.Label())
  }

  /** One cipher's part of the scan. A dump shorter than the key skips a block cipher, whatever the ciphertext. */
  function PartOf(e: Env, c: CipherChoice): Result<Part, Error> {
    if c.IsStream() then
      if e.ciphertext == [] then Err(EmptyCiphertext)
      else Ok(Found(StreamHunt.Hits(ChaChaTask(e, c).AsTask()), WindowCount(|e.dump|, 32)))
    else if |e.dump| < c.KeyLen() then Ok(Found([], 0))
    else if e.config.mode == Block then
      var blocks :- SplitBlocks(e.ciphertext, c.BlockLen());
      if e.config.fixedIv.Some? && |e.config.fixedIv.value| != c.BlockLen() then
        Err(FixedIvLength(|e.config.fixedIv.value|, c.Label(), c.BlockLen()))
      else
        Ok(Found(BlockHunt.Hits(BlockTask(e, c, blocks)), WindowCount(|e.dump|, c.KeyLen())))
    else if e.ciphertext == [] then Err(EmptyCiphertext)
    else Ok(Found(StreamHunt.Hits(CounterTask(e, c).AsTask()), WindowCount(|e.dump|, c.KeyLen())))
  }

  function PartsOf(e: Env): (ps: Parts)
    ensures |ps| == |e.config.ciphers|
  {
    seq(|e.config.ciphers|, i requires 0 <= i < |e.config.ciphers| => PartOf(e, e.config.ciphers[i]))
  }

  function Scanned(e: Env): Result<Part, Error> {
    match Rejection(e.config)
    case Some(error) => Err(error)
    case None =>
      if (e.config.mode != CipherMode.Gcm || e.config.tag.None?) && e.oracles == [] then Err(NoOracle)
      else From(PartsOf(e), e.config.maxHits, 0)
  }

  // --------------------------------------------------------- implementation

  /** One turn of the loop over the ciphers; None when the cipher is skipped. */
  method ScanCipher(e: Env, c: CipherChoice, tried: AtomicU64, ghost expected: Result<Part, Error>)
    returns (r: Result<Option<seq<Hit>>, Error>)
    requires e.suite.WellFormed() && Drivable(e.config, c) && expected == PartOf(e, c)
    requires tried.Valid()
    modifies tried
    ensures match expected
            case Err(error) => r == Err(error)
            case Ok(part) =>
              && r.Ok?
              && part.hits == (if r.value.Some? then r.value.value else [])
              && tried.Valid() && tried.total == old(tried.total) + part.tried
  {
    if c.IsStream() {
      if e.ciphertext == [] {
        return Err(EmptyCiphertext);
      }
      var found := StreamHunt.HuntStreamCipher(ChaChaTask(e, c), tried);
      return Ok(Some(found));
    }
    var cipher := e.suite.Adapter(c);
    if |e.dump| < cipher.keyLen {
      return Ok(None);
    }
    if e.config.mode == Block {
      var blocks := SplitBlocks(e.ciphertext, cipher.blockLen);
      if blocks.Err? {
        return Err(blocks.error);
      }
      if e.config.fixedIv.Some? && |e.config.fixedIv.value| != cipher.blockLen {
        return Err(FixedIvLength(|e.config.fixedIv.value|, c.Label(), cipher.blockLen));
      }
      BlockTaskIsValid(e, c);
      var found := BlockHunt.Hunt(BlockTask(e, c, blocks.value), tried);
      return Ok(Some(found));
    }
    if e.ciphertext == [] {
      return Err(EmptyCiphertext);
    }
    var found := StreamHunt.HuntStream(CounterTask(e, c), tried);
    return Ok(Some(found));
  }

  lemma BlockTaskIsValid(e: Env, c: CipherChoice)
    requires e.suite.WellFormed() && !c.IsStream()
    requires SplitBlocks(e.ciphertext, c.BlockLen()).Ok?
    requires e.config.fixedIv.Some? ==> |e.config.fixedIv.value| == c.BlockLen()
    ensures BlockTask(e, c, SplitBlocks(e.ciphertext, c.BlockLen()).value).Valid()
    ensures Flatten(SplitBlocks(e.ciphertext, c.BlockLen()).value) == e.ciphertext
  {
    FlattenChunks(e.ciphertext, c.BlockLen());
  }

  /** `scan`. Any configuration may be passed: no hunt is ever called outside its contract. */
  method RunScan(e: Env) returns (r: Result<Part, Error>)
    requires e.suite.WellFormed()
    ensures Counted(Scanned(e), r)
  {
    var rejected := Rejection(e.config);
    if rejected.Some? {
      return Err(rejected.value);
    }
    if (e.config.mode != CipherMode.Gcm || e.config.tag.None?) && e.oracles == [] {
      return Err(NoOracle);
    }
    AcceptedIsDrivable(e.config);
    r := ScanAll(e, PartsOf(e));
  }

  /** The loop over the ciphers. */
  method ScanAll(e: Env, ghost ps: Parts) returns (r: Result<Part, Error>)
    requires e.suite.WellFormed() && ps == PartsOf(e)
    requires forall i :: 0 <= i < |e.config.ciphers| ==> Drivable(e.config, e.config.ciphers[i])
    ensures Counted(From(ps, e.config.maxHits, 0), r)
  {
    var tried := new AtomicU64();
    var allHits: seq<Hit> := [];
    for i := 0 to |e.config.ciphers|
      invariant fresh(tried) && tried.Valid() && Reached(ps, e.config.maxHits, i, allHits, tried.total)
    {
      ghost var total := tried.total;
      var found := ScanCipher(e, e.config.ciphers[i], tried, ps[i]);
      if found.Err? {
        ReachedError(ps, e.config.maxHits, i, allHits, total);
        return Err(found.error);
      }
      ReachedNext(ps, e.config.maxHits, i, allHits, total, ps[i].value.hits, tried.total);
      assert allHits + [] == allHits;
      if found.value.Some? {
        allHits := allHits + found.value.value;
        if LimitReached(e.config.maxHits, allHits) {
          allHits := allHits[..e.config.maxHits];
          return Ok(Found(allHits, tried.value));
        }
      }
    }
    return Ok(Found(allHits, tried.value));
  }
}
