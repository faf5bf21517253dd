/**
 * The key hunt for keystream ciphers: AES in CTR and GCM mode, ChaCha20 and XChaCha20.
 * Tag verification is a foreign call and stays an arbitrary function.
 */
module StreamHunt {
  import opened Bytes
  import opened Carrying
  import opened Ciphers
  import opened CounterMode
  import opened Oracles
  import opened Report
  import opened Results
  import opened Windows
  import BlockHunt
  import Samples
  import Utf8

  /** Authenticated decryption by key, nonce, ciphertext, tag and associated data. */
  type Opener = (seq<byte>, seq<byte>, seq<byte>, seq<byte>, seq<byte>) -> Option<seq<byte>>

  /** One hunt: `open` is there when a tag is, `keystream` depends on the candidate key. */
  datatype Task = Task(
    dump: seq<byte>, ciphertext: seq<byte>, keyLen: nat, verifyLen: nat, oracles: seq<Oracle>,
    open: Option<seq<byte> -> Option<seq<byte>>>, openName: string,
    accepts: seq<byte> -> bool, keystream: seq<byte> -> (nat -> byte),
    algo: string, mode: Mode, nonce: seq<byte>)
  {
    predicate Valid() {
      0 < keyLen && ciphertext != [] && verifyLen <= |ciphertext|
    }

    function Total(): nat {
      WindowCount(|dump|, keyLen)
    }

    function Key(o: nat): seq<byte>
      requires o < Total()
    {
      dump[o..o + keyLen]
    }
  }

  // -------------------------------------------------------- specification

  function MakeHit(t: Task, o: nat, key: seq<byte>, plaintext: seq<byte>, m: Match): Hit {
    Hit(t.algo, t.mode, key, o, None, None, Some(t.nonce), None, plaintext, m, [])
  }

  /** The verdict on the window at `o`. */
  function HitAt(t: Task, o: nat): Option<Hit> {
    if o >= t.Total() || t.verifyLen > |t.ciphertext| then None
    else
      var key := t.Key(o);
      match t.open
      case Some(open) =>
        (match open(key)
         case None => None
         case Some(plaintext) => Some(MakeHit(t, o, key, plaintext, Match(t.openName, High))))
      case None =>
        if !t.accepts(key) then None
        else
          match BestMatch(t.oracles, XorStream(t.keystream(key), t.ciphertext[..t.verifyLen]))
          case None => None
          case Some(m) => Some(MakeHit(t, o, key, XorStream(t.keystream(key), t.ciphertext), m))
  }

  function Verdicts(t: Task): nat -> Option<Hit> {
    (o: nat) => HitAt(t, o)
  }

  function Hits(t: Task): seq<Hit> {
    Collect(Verdicts(t), 0, t.Total())
  }

  // ----------------------------------------------------------- AES CTR and GCM

  /** The arguments of `hunt_stream`. */
  datatype CounterHunt = CounterHunt(
    dump: seq<byte>, ciphertext: seq<byte>, cipher: BlockCipher, oracles: seq<Oracle>, cipherMode: CipherMode,
    nonce: seq<byte>, tag: Option<seq<byte>>, aad: seq<byte>, opener: Opener, algo: string)
  {
    ghost predicate Valid() {
      && cipher.WellFormed() && cipher.blockLen == 16
      && NonceFits(cipherMode, nonce)
      && (cipherMode == CipherMode.Gcm && tag.Some? ==> |tag.value| == 16)
      && ciphertext != []
    }

    function AsTask(): Task {
      Task(dump, ciphertext, cipher.keyLen, Min(BlockHunt.VERIFY_BLOCKS * cipher.blockLen, |ciphertext|), oracles,
           if cipherMode == CipherMode.Gcm && tag.Some? then
             Some(key => opener(key, nonce, ciphertext, tag.value, aad))
           else None,
           "gcm-tag",
           cipher.accepts, key => Keystream(cipher, key, nonce, cipherMode),
           algo, if cipherMode == CipherMode.Gcm then Mode.Gcm else Mode.Ctr, nonce)
    }
  }

  method HuntCounterWindow(h: CounterHunt, o: nat) returns (hit: Option<Hit>)
    requires h.Valid() && o < h.AsTask().Total()
    ensures hit == HitAt(h.AsTask(), o)
  {
    var t := h.AsTask();
    var key := h.dump[o..o + h.cipher.keyLen];
    if h.cipherMode == CipherMode.Gcm && h.tag.Some? {
      var unlocked := h.opener(key, h.nonce, h.ciphertext, h.tag.value, h.aad);
      if unlocked.None? {
        return None;
      }
      return Some(MakeHit(t, o, key, unlocked.value, Match("gcm-tag", High)));
    }
    var verifyLen := Min(BlockHunt.VERIFY_BLOCKS * h.cipher.blockLen, |h.ciphertext|);
    var head := StreamDecrypt(h.cipher, key, h.ciphertext[..verifyLen], h.nonce, h.cipherMode);
    if head.None? {
      return None;
    }
    var matched := BestMatch(h.oracles, head.value);
    if matched.None? {
      return None;
    }
    var plaintext := StreamDecrypt(h.cipher, key, h.ciphertext, h.nonce, h.cipherMode);
    return Some(MakeHit(t, o, key, plaintext.value, matched.value));
  }

  /** `hunt_stream`. */
  method HuntStream(h: CounterHunt, tried: AtomicU64) returns (hits: seq<Hit>)
    requires h.Valid()
    requires tried.Valid()
    modifies tried
    ensures hits == Hits(h.AsTask())
    ensures tried.Valid() && tried.total == old(tried.total) + h.AsTask().Total()
  {
    ghost var t := h.AsTask();
    hits := [];
    for o := 0 to WindowCount(|h.dump|, h.cipher.keyLen)
      invariant hits == Collect(Verdicts(t), 0, o)
      invariant tried.Valid() && tried.total == old(tried.total) + o
    {
      tried.FetchAddOne();
      var hit := HuntCounterWindow(h, o);
      assert Verdicts(t)(o) == HitAt(t, o);
      if hit.Some? {
        hits := hits + [hit.value];
      }
    }
  }

  // ---------------------------------------------------------------- ChaCha

  /** A stream-cipher adapter: 32-byte keys, a fixed nonce length. */
  datatype StreamCipher = StreamCipher(nonceLen: nat, keystream: (seq<byte>, seq<byte>) -> (nat -> byte)) {

    /** `xor_keystream`: refuses a key or nonce of the wrong length. */
    function XorKeystream(key: seq<byte>, nonce: seq<byte>, data: seq<byte>): Option<seq<byte>> {
      if |key| != 32 || |nonce| != nonceLen then None
      else Some(XorStream(keystream(key, nonce), data))
    }
  }

  /** The arguments of `hunt_stream_cipher`. */
  datatype ChaChaHunt = ChaChaHunt(
    dump: seq<byte>, ciphertext: seq<byte>, adapter: StreamCipher, oracles: seq<Oracle>,
    nonce: seq<byte>, tag: Option<seq<byte>>, aad: seq<byte>, opener: Opener, algo: string)
  {
    ghost predicate Valid() {
      && |nonce| == adapter.nonceLen
      && (tag.Some? ==> |tag.value| == 16)
      && ciphertext != []
    }

    function AsTask(): Task {
      Task(dump, ciphertext, 32, Min(BlockHunt.VERIFY_BLOCKS * 16, |ciphertext|), oracles,
           if tag.Some? then Some(key => opener(key, nonce, ciphertext, tag.value, aad)) else None,
           "poly1305-tag",
           key => |key| == 32 && |nonce| == adapter.nonceLen, key => adapter.keystream(key, nonce),
           algo, Mode.Stream, nonce)
    }
  }

  method HuntChaChaWindow(h: ChaChaHunt, o: nat) returns (hit: Option<Hit>)
    requires h.Valid() && o < h.AsTask().Total()
    ensures hit == HitAt(h.AsTask(), o)
  {
    var t := h.AsTask();
    var key := h.dump[o..o + 32];
    if h.tag.Some? {
      var unlocked := h.opener(key, h.nonce, h.ciphertext, h.tag.value, h.aad);
      if unlocked.None? {
        return None;
      }
      return Some(MakeHit(t, o, key, unlocked.value, Match("poly1305-tag", High)));
    }
    var verifyLen := Min(BlockHunt.VERIFY_BLOCKS * 16, |h.ciphertext|);
    var head := h.adapter.XorKeystream(key, h.nonce, h.ciphertext[..verifyLen]);
    if head.None? {
      return None;
    }
    var matched := BestMatch(h.oracles, head.value);
    if matched.None? {
      return None;
    }
    var plaintext := h.adapter.XorKeystream(key, h.nonce, h.ciphertext);
    if plaintext.None? {
      return None;
    }
    return Some(MakeHit(t, o, key, plaintext.value, matched.value));
  }

  /** `hunt_stream_cipher`. */
  method HuntStreamCipher(h: ChaChaHunt, tried: AtomicU64) returns (hits: seq<Hit>)
    requires h.Valid()
    requires tried.Valid()
    modifies tried
    ensures hits == Hits(h.AsTask())
    ensures tried.Valid() && tried.total == old(tried.total) + h.AsTask().Total()
  {
    ghost var t := h.AsTask();
    hits := [];
    for o := 0 to WindowCount(|h.dump|, 32)
      invariant hits == Collect(Verdicts(t), 0, o)
      invariant tried.Valid() && tried.total == old(tried.total) + o
    {
      tried.FetchAddOne();
      var hit := HuntChaChaWindow(h, o);
      assert Verdicts(t)(o) == HitAt(t, o);
      if hit.Some? {
        hits := hits + [hit.value];
      }
    }
  }

  // -------------------------------------------------------------- theorems

  /** The hits are exactly the accepted windows, each once, in offset order. */
  lemma HitsAreExact(t: Task)
    ensures forall h :: h in Hits(t) <==> HitAt(t, h.keyOffset) == Some(h)
    ensures forall i, j :: 0 <= i < j < |Hits(t)| ==> Hits(t)[i].keyOffset < Hits(t)[j].keyOffset
  {
    CollectByIndex(Verdicts(t), (h: Hit) => h.keyOffset, t.Total());
  }

  /** Oracle i judged the hit: it accepts the head of the plaintext, none is preferred to it, and the hit names it. */
  ghost predicate JudgedBy(t: Task, h: Hit, i: nat) {
    && t.verifyLen <= |h.plaintext|
    && IsBest(t.oracles, h.plaintext[..t.verifyLen], i)
    && h.matched == Match(t.oracles[i].name, t.oracles[i].confidence)
  }

  /**
   * Without a tag: a hit's plaintext encrypts back to the ciphertext under the reported
   * key, the verified head is its prefix, and the oracle it names accepts the whole of it
   * unless more text on the right could revoke the verdict.
   */
  lemma StreamHitIsWitness(t: Task, h: Hit) returns (i: nat)
    requires t.Valid() && t.open.None? && h in Hits(t)
    ensures h.keyOffset < t.Total() && h.key == t.Key(h.keyOffset)
    ensures XorStream(t.keystream(h.key), h.plaintext) == t.ciphertext
    ensures |h.plaintext| == |t.ciphertext| && JudgedBy(t, h, i)
    ensures RightStable(t.oracles[i]) ==> t.oracles[i].verify(h.plaintext)
  {
    HitsAreExact(t);
    XorStreamInvolution(t.keystream(h.key), t.ciphertext, t.verifyLen);
    var head := h.plaintext[..t.verifyLen];
    BestMatchIsBest(t.oracles, head);
    i :| IsBest(t.oracles, head, i) && h.matched == Match(t.oracles[i].name, t.oracles[i].confidence);
    assert head + h.plaintext[t.verifyLen..] == h.plaintext;
  }

  /** A hit judged by a known fragment, as gzip or as protobuf is accepted as a whole. */
  lemma StableHitIsAccepted(t: Task, h: Hit, i: nat, fragment: seq<byte>)
    requires t.Valid() && t.open.None? && h in Hits(t) && JudgedBy(t, h, i)
    requires t.oracles[i] in {KnownOracle(fragment), GzipOracle(), ProtobufOracle()}
    ensures t.oracles[i].verify(h.plaintext)
  {
    KnownIsRightStable(fragment);
    GzipIsRightStable();
    ProtobufIsRightStable();
    var j := StreamHitIsWitness(t, h);
    IsBestUnique(t.oracles, h.plaintext[..t.verifyLen], i, j);
  }

  /** The whole plaintext of a hit judged by a built-in oracle is accepted by it exactly when `Carries` holds. */
  lemma BuiltinVerdictCarriesIff(t: Task, h: Hit, i: nat)
    requires JudgedBy(t, h, i) && IsBuiltin(t.oracles[i])
    ensures t.oracles[i].verify(h.plaintext) <==>
      Carries(t.oracles[i], [], h.plaintext[..t.verifyLen], h.plaintext[t.verifyLen..])
  {
    BuiltinVerdictExtendsIff(t.oracles[i], h.plaintext[..t.verifyLen], h.plaintext[t.verifyLen..]);
    assert h.plaintext[..t.verifyLen] + h.plaintext[t.verifyLen..] == h.plaintext;
  }

  /** A dump that is the key, and the CTR encryption of a sample in front of garbage. */
  function CtrSampleHunt(c: BlockCipher, key: seq<byte>, nonce: seq<byte>, opener: Opener,
                         o: Oracle, s: seq<byte>): CounterHunt
  {
    CounterHunt(key, Crypt(c, key, nonce, CipherMode.Ctr, s + Samples.GARBAGE), c, [o], CipherMode.Ctr,
                nonce, None, [], opener, "")
  }

  /**
   * A verdict on the head does not always carry: for every cipher with 16-byte blocks, every
   * key and every nonce there is a CTR hit judged on 32 bytes as utf8, as json or as utf16le,
   * whose whole plaintext is rejected.
   */
  lemma CtrVerdictCanFail(c: BlockCipher, key: seq<byte>, nonce: seq<byte>, opener: Opener, o: Oracle, s: seq<byte>)
    returns (hunt: CounterHunt, h: Hit)
    requires c.WellFormed() && c.blockLen == 16 && c.Usable(key) && |nonce| == 16
    requires Samples.IsSample(o, s) && (o == Utf8Oracle() || o == JsonOracle() || o == Utf16LeOracle())
    ensures hunt.Valid() && hunt.cipher == c && hunt.nonce == nonce && hunt.oracles == [o]
    ensures h in Hits(hunt.AsTask()) && h.key == key && JudgedBy(hunt.AsTask(), h, 0)
    ensures h.plaintext[..hunt.AsTask().verifyLen] == s && !o.verify(h.plaintext)
  {
    var msg := s + Samples.GARBAGE;
    Samples.SampleIsAccepted(o, s);
    Samples.RestRevokes(o, s);
    BestOfOne(o, s);
    hunt := CtrSampleHunt(c, key, nonce, opener, o, s);
    var t := hunt.AsTask();
    assert t.Key(0) == key && t.verifyLen == 32 && msg[..32] == s;
    StreamFoundIff(t, 0, msg);
    h :| h in Hits(t) && h.keyOffset == 0;
    var i := StreamHitIsWitness(t, h);
  }

  /**
   * Without a tag: an accepted key under which `msg` was encrypted is reported with exactly
   * `msg` if and only if some oracle accepts the head of `msg`.
   */
  lemma StreamFoundIff(t: Task, o: nat, msg: seq<byte>)
    requires t.Valid() && t.open.None? && o < t.Total() && t.accepts(t.Key(o))
    requires t.ciphertext == XorStream(t.keystream(t.Key(o)), msg)
    ensures |msg| == |t.ciphertext|
    ensures (exists h :: h in Hits(t) && h.keyOffset == o) <==> BestMatch(t.oracles, msg[..t.verifyLen]).Some?
    ensures forall h :: h in Hits(t) && h.keyOffset == o ==> h.plaintext == msg && h.key == t.Key(o)
  {
    HitsAreExact(t);
    XorStreamInvolution(t.keystream(t.Key(o)), msg, t.verifyLen);
    XorStreamInvolution(t.keystream(t.Key(o)), t.ciphertext, t.verifyLen);
    if BestMatch(t.oracles, msg[..t.verifyLen]).Some? {
      assert HitAt(t, o).value in Hits(t);
    }
  }

  /**
   * A printable message under the utf8 oracle: its key is reported exactly when the head, 32
   * bytes or all there is, does not end inside a character.
   */
  lemma PrintableStreamFoundIff(t: Task, o: nat, msg: seq<byte>)
    requires t.Valid() && t.open.None? && o < t.Total() && t.accepts(t.Key(o)) && 0 < t.verifyLen
    requires t.ciphertext == XorStream(t.keystream(t.Key(o)), msg)
    requires t.oracles == [Utf8Oracle()] && Utf8.AllPrintable(msg)
    ensures t.verifyLen <= |msg|
    ensures (exists h :: h in Hits(t) && h.keyOffset == o) <==> Utf8.CutsCleanly(msg, t.verifyLen)
  {
    StreamFoundIff(t, o, msg);
    PrintableHeadIff(msg, t.verifyLen);
    BestOfOne(Utf8Oracle(), msg[..t.verifyLen]);
  }

  /** With a tag: exactly the keys the tag verifies are reported, with what it opens to; no oracle is asked. */
  lemma TaggedHitsAreVerified(t: Task, o: nat)
    requires t.Valid() && t.open.Some? && o < t.Total()
    ensures (exists h :: h in Hits(t) && h.keyOffset == o) <==> t.open.value(t.Key(o)).Some?
    ensures forall h :: h in Hits(t) && h.keyOffset == o ==>
      Some(h.plaintext) == t.open.value(t.Key(o)) && h.matched == Match(t.openName, High)
  {
    HitsAreExact(t);
    if t.open.value(t.Key(o)).Some? {
      assert HitAt(t, o).value in Hits(t);
    }
  }

  // ------------------------------------- the two hunts, in their own terms

  /** The window at o, and what of the hit does not depend on the key. */
  ghost predicate IsAt(h: Hit, dump: seq<byte>, o: nat, keyLen: nat, nonce: seq<byte>, mode: Mode, algo: string) {
    && o + keyLen <= |dump|
    && h.keyOffset == o && h.key == dump[o..o + keyLen]
    && h.nonce == Some(nonce) && h.mode == mode && h.algo == algo
  }

  /** CTR, or GCM without a tag: a key is reported iff some oracle accepts the first 32 bytes of the message. */
  lemma CounterFoundIff(h: CounterHunt, o: nat, msg: seq<byte>)
    requires h.Valid() && (h.cipherMode == CipherMode.Ctr || h.tag.None?)
    requires o + h.cipher.keyLen <= |h.dump| && h.cipher.accepts(h.dump[o..o + h.cipher.keyLen])
    requires h.ciphertext == Crypt(h.cipher, h.dump[o..o + h.cipher.keyLen], h.nonce, h.cipherMode, msg)
    ensures (exists x :: x in Hits(h.AsTask()) && x.keyOffset == o)
      <==> BestMatch(h.oracles, msg[..Min(32, |msg|)]).Some?
    ensures forall x :: x in Hits(h.AsTask()) && x.keyOffset == o ==>
      && x.plaintext == msg
      && IsAt(x, h.dump, o, h.cipher.keyLen, h.nonce,
              if h.cipherMode == CipherMode.Gcm then Mode.Gcm else Mode.Ctr, h.algo)
  {
    HitsAreExact(h.AsTask());
    StreamFoundIff(h.AsTask(), o, msg);
  }

  /** GCM with a tag: a key is reported iff the tag opens under it, with the nonce, ciphertext and data given. */
  lemma GcmTagFoundIff(h: CounterHunt, o: nat)
    requires h.Valid() && h.cipherMode == CipherMode.Gcm && h.tag.Some? && o + h.cipher.keyLen <= |h.dump|
    ensures var shown := h.opener(h.dump[o..o + h.cipher.keyLen], h.nonce, h.ciphertext, h.tag.value, h.aad);
      && ((exists x :: x in Hits(h.AsTask()) && x.keyOffset == o) <==> shown.Some?)
      && forall x :: x in Hits(h.AsTask()) && x.keyOffset == o ==>
           && Some(x.plaintext) == shown && x.matched == Match("gcm-tag", High)
           && IsAt(x, h.dump, o, h.cipher.keyLen, h.nonce, Mode.Gcm, h.algo)
  {
    HitsAreExact(h.AsTask());
    TaggedHitsAreVerified(h.AsTask(), o);
  }

  /** ChaCha20 and XChaCha20 without a tag. */
  lemma ChaChaFoundIff(h: ChaChaHunt, o: nat, msg: seq<byte>)
    requires h.Valid() && h.tag.None? && o + 32 <= |h.dump|
    requires h.ciphertext == XorStream(h.adapter.keystream(h.dump[o..o + 32], h.nonce), msg)
    ensures (exists x :: x in Hits(h.AsTask()) && x.keyOffset == o)
      <==> BestMatch(h.oracles, msg[..Min(32, |msg|)]).Some?
    ensures forall x :: x in Hits(h.AsTask()) && x.keyOffset == o ==>
      x.plaintext == msg && IsAt(x, h.dump, o, 32, h.nonce, Mode.Stream, h.algo)
  {
    HitsAreExact(h.AsTask());
    StreamFoundIff(h.AsTask(), o, msg);
  }

  /** With a Poly1305 tag. */
  lemma Poly1305TagFoundIff(h: ChaChaHunt, o: nat)
    requires h.Valid() && h.tag.Some? && o + 32 <= |h.dump|
    ensures var shown := h.opener(h.dump[o..o + 32], h.nonce, h.ciphertext, h.tag.value, h.aad);
      && ((exists x :: x in Hits(h.AsTask()) && x.keyOffset == o) <==> shown.Some?)
      && forall x :: x in Hits(h.AsTask()) && x.keyOffset == o ==>
           && Some(x.plaintext) == shown && x.matched == Match("poly1305-tag", High)
           && IsAt(x, h.dump, o, 32, h.nonce, Mode.Stream, h.algo)
  {
    HitsAreExact(h.AsTask());
    TaggedHitsAreVerified(h.AsTask(), o);
  }
}
