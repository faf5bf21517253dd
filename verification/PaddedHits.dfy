/**
 * What a block-mode hit says of its padding: the remainder and the label are the only ones
 * the whole decryption allows, and a message that was padded with zeros comes back too.
 */
module PaddedHits {
  import opened BlockCompleteness
  import opened BlockHunt
  import opened BlockTheorems
  import opened Bytes
  import opened Ciphers
  import opened Oracles
  import opened Report
  import opened Results
  import Padding

  /** Every hit strips its whole decryption as its label says, and no other way to strip it is left. */
  lemma PaddingIsExact(t: Task, h: Hit)
    requires t.Valid() && h in Hits(t)
    ensures h.padding.Some? && Padding.StripsTo(Full(t, h), h.plaintext, h.padding.value)
    ensures forall left, kind :: Padding.StripsTo(Full(t, h), left, kind) ==>
      left == h.plaintext && kind == h.padding.value
  {
    HitsAreExact(t);
    HitModes(t, h.keyOffset);
    FullIsStripped(t, h);
    forall left, kind
      ensures Padding.Unpad(Full(t, h)) == (left, kind) <==> Padding.StripsTo(Full(t, h), left, kind)
    {
      Padding.UnpadIsExact(Full(t, h), left, kind);
    }
  }

  lemma FullIsStripped(t: Task, h: Hit)
    requires t.Valid() && HitAt(t, h.keyOffset) == Some(h) && (h.mode == Ecb || h.mode == Cbc)
    ensures h.padding.Some? && Padding.Unpad(Full(t, h)) == (h.plaintext, h.padding.value)
  {
    if h.mode == Ecb {
      EcbHitIsWitness(t, h.keyOffset);
    } else {
      CbcHitIsWitness(t, h.keyOffset);
    }
  }

  /** A hit labelled with zero padding does not end in a zero byte. */
  lemma ZeroHitIsStripped(t: Task, h: Hit)
    requires t.Valid() && h in Hits(t) && h.padding == Some(Padding.Zero)
    ensures h.plaintext == [] || h.plaintext[|h.plaintext| - 1] != 0
  {
    PaddingIsExact(t, h);
  }

  // ------------------------------------------------------- any padded text

  /** A text of whole blocks, whichever way it was padded. */
  ghost predicate IsText(t: Task, o: nat, text: seq<byte>) {
    && t.Valid() && text != [] && |text| % t.cipher.blockLen == 0
    && o + t.cipher.keyLen <= |t.dump| && t.cipher.accepts(t.Key(o))
  }

  function BlocksOf(t: Task, text: seq<byte>): seq<seq<byte>>
    requires 0 < t.cipher.blockLen
  {
    Chunks(text, t.cipher.blockLen)
  }

  lemma BlocksOfText(t: Task, o: nat, text: seq<byte>)
    requires IsText(t, o, text)
    ensures BlocksOf(t, text) != [] && Flatten(BlocksOf(t, text)) == text
  {
    FlattenChunks(text, t.cipher.blockLen);
  }

  /** An ECB text whose first two blocks are accepted is the whole decryption of a hit at the key's offset. */
  lemma EcbTextIsRead(t: Task, o: nat, text: seq<byte>)
    requires IsText(t, o, text) && t.blocks == EcbEncrypt(t.cipher, t.Key(o), BlocksOf(t, text))
    requires BestMatch(t.oracles, HeadBytes(BlocksOf(t, text))).Some?
    ensures HitAt(t, o).Some? && HitAt(t, o).value in Hits(t)
    ensures var h := HitAt(t, o).value;
      h.mode == Ecb && h.keyOffset == o && h.padding.Some? && Full(t, h) == text
  {
    BlocksOfText(t, o, text);
    EcbRestores(t.cipher, t.Key(o), BlocksOf(t, text));
    HitsAreExact(t);
    EcbHitIsWitness(t, o);
  }

  /** A CBC hit that reports the true IV has the text as its whole decryption. */
  lemma CbcTextIsRead(t: Task, h: Hit, iv: seq<byte>, text: seq<byte>)
    requires IsText(t, h.keyOffset, text) && |iv| == t.cipher.blockLen
    requires t.blocks == CbcEncrypt(t.cipher, t.Key(h.keyOffset), iv, BlocksOf(t, text))
    requires h in Hits(t) && h.mode == Cbc && h.iv == Some(iv)
    ensures h.padding.Some? && Full(t, h) == text
  {
    var key, ps := t.Key(h.keyOffset), BlocksOf(t, text);
    BlocksOfText(t, h.keyOffset, text);
    HitsAreExact(t);
    CbcHitIsWitness(t, h.keyOffset);
    Block0IsConsistent(t, key);
    CbcEncryptBlocks(t.cipher, key, iv, ps);
    CbcTailIsIvFree(t.cipher, key, iv, t.blocks);
    assert ps == [ps[0]] + ps[1..];
    FlattenCons(ps[0], ps[1..]);
  }

  // -------------------------------------------------------- zero padding

  /** The message does not end in a zero byte, and zeros fill it up; without any it does not read as PKCS#7. */
  ghost predicate IsZeroPadded(msg: seq<byte>, text: seq<byte>) {
    && (msg == [] || msg[|msg| - 1] != 0)
    && |msg| <= |text| && text == msg + Padding.Repeat(0, |text| - |msg|)
    && (|msg| == |text| ==> !Padding.EndsInPkcs7(msg))
  }

  /** Whatever hit has a zero-padded message as its whole decryption reports exactly the message. */
  lemma ZeroPaddedIsReported(t: Task, h: Hit, msg: seq<byte>)
    requires t.Valid() && h in Hits(t) && h.padding.Some? && IsZeroPadded(msg, Full(t, h))
    ensures h.plaintext == msg && h.padding == Some(Padding.Zero)
  {
    var text := Full(t, h);
    Padding.UnpadUndoesZeros(msg, |text| - |msg|);
    Padding.UnpadIsExact(text, msg, Padding.Zero);
    PaddingIsExact(t, h);
  }

  /** ECB: a zero-padded message whose head is accepted is reported exactly. */
  lemma EcbZeroCompleteness(t: Task, o: nat, msg: seq<byte>, text: seq<byte>)
    requires IsText(t, o, text) && IsZeroPadded(msg, text)
    requires t.blocks == EcbEncrypt(t.cipher, t.Key(o), BlocksOf(t, text))
    requires BestMatch(t.oracles, HeadBytes(BlocksOf(t, text))).Some?
    ensures HitAt(t, o).Some? && HitAt(t, o).value in Hits(t)
    ensures HitAt(t, o).value.plaintext == msg && HitAt(t, o).value.padding == Some(Padding.Zero)
  {
    EcbTextIsRead(t, o, text);
    ZeroPaddedIsReported(t, HitAt(t, o).value, msg);
  }

  /** CBC: a hit that reports the true IV of a zero-padded message reports exactly the message. */
  lemma CbcZeroCompleteness(t: Task, h: Hit, iv: seq<byte>, msg: seq<byte>, text: seq<byte>)
    requires IsText(t, h.keyOffset, text) && IsZeroPadded(msg, text) && |iv| == t.cipher.blockLen
    requires t.blocks == CbcEncrypt(t.cipher, t.Key(h.keyOffset), iv, BlocksOf(t, text))
    requires h in Hits(t) && h.mode == Cbc && h.iv == Some(iv)
    ensures h.plaintext == msg && h.padding == Some(Padding.Zero)
  {
    CbcTextIsRead(t, h, iv, text);
    ZeroPaddedIsReported(t, h, msg);
  }

  /** CBC with the right fixed IV: the key of a text is reported exactly when the oracles recognise it. */
  lemma CbcTextFoundIff(t: Task, o: nat, iv: seq<byte>, text: seq<byte>)
    requires IsText(t, o, text) && t.fixedIv == Some(iv)
    requires t.blocks == CbcEncrypt(t.cipher, t.Key(o), iv, BlocksOf(t, text))
    ensures BlocksOf(t, text) != []
    ensures (exists h :: h in Hits(t) && h.keyOffset == o && h.mode == Cbc && h.iv == Some(iv)) <==>
      var ps := BlocksOf(t, text);
      && BestMatch(t.oracles, EcbHead(t, t.Key(o))).None?
      && BestMatch(t.oracles, if |ps| > 1 then HeadBytes(ps[1..]) else ps[0]).Some?
  {
    var key, ps := t.Key(o), BlocksOf(t, text);
    BlocksOfText(t, o, text);
    CbcEncryptBlocks(t.cipher, key, iv, ps);
    CbcTailIsIvFree(t.cipher, key, iv, t.blocks);
    HitsAreExact(t);
    if HitAt(t, o).Some? {
      assert HitAt(t, o).value in Hits(t);
    }
  }
}
