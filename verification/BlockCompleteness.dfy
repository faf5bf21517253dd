/** Which keys the block-cipher hunt cannot miss, and what it reports of them. */
module BlockCompleteness {
  import opened BlockHunt
  import opened BlockTheorems
  import opened Bytes
  import opened Carrying
  import opened Ciphers
  import opened Oracles
  import opened Report
  import opened Results
  import IvSearch
  import Padding
  import Samples
  import Utf8

  // ------------------------------------------------------- CBC completeness

  function Padded(t: Task, msg: seq<byte>): seq<seq<byte>>
    requires 0 < t.cipher.blockLen < 256
  {
    Chunks(Padding.Pkcs7Pad(msg, t.cipher.blockLen), t.cipher.blockLen)
  }

  /** The ciphertext is the CBC encryption of the padded message, and its key lies at `o`. */
  ghost predicate Planted(t: Task, o: nat, iv: seq<byte>, msg: seq<byte>) {
    && t.Valid() && t.cipher.blockLen < 256
    && o + t.cipher.keyLen <= |t.dump| && t.cipher.accepts(t.Key(o))
    && |iv| == t.cipher.blockLen
    && t.blocks == CbcEncrypt(t.cipher, t.Key(o), iv, Padded(t, msg))
  }

  /** Any message can be planted: encrypt it and put the key anywhere in a dump. */
  lemma AnyMessageCanBePlanted(c: BlockCipher, before: seq<byte>, key: seq<byte>, after: seq<byte>,
                               iv: seq<byte>, msg: seq<byte>, oracles: seq<Oracle>, fixedIv: Option<seq<byte>>)
    requires c.WellFormed() && c.blockLen < 256 && c.Usable(key)
    requires |iv| == c.blockLen && (fixedIv.Some? ==> |fixedIv.value| == c.blockLen)
    ensures var ps := Chunks(Padding.Pkcs7Pad(msg, c.blockLen), c.blockLen);
      Planted(Task(before + key + after, CbcEncrypt(c, key, iv, ps), c, oracles, true, fixedIv, ""), |before|, iv, msg)
  {
    var ps := Chunks(Padding.Pkcs7Pad(msg, c.blockLen), c.blockLen);
    CbcEncryptBlocks(c, key, iv, ps);
    var t := Task(before + key + after, CbcEncrypt(c, key, iv, ps), c, oracles, true, fixedIv, "");
    assert t.Key(|before|) == key;
    AtLeastOneBlock(msg, c.blockLen);
  }

  lemma AtLeastOneBlock(msg: seq<byte>, n: nat)
    requires 0 < n < 256
    ensures |Padding.Pkcs7Pad(msg, n)| >= n
  {
    if |msg| < n {
      DivModUnique(|msg|, n, 0, |msg|);
    }
  }

  /**
   * The oracles reject the ECB reading and accept what CBC verification sees: blocks 1..2 of
   * the padded message, or its only block as the given IV decrypts it.
   */
  ghost predicate Recognised(t: Task, o: nat, iv: seq<byte>, msg: seq<byte>)
    requires o < t.Total() && 0 < t.cipher.blockLen < 256 && Padded(t, msg) != []
  {
    && BestMatch(t.oracles, EcbHead(t, t.Key(o))).None?
    && var ps := Padded(t, msg);
       if |ps| > 1 then BestMatch(t.oracles, HeadBytes(ps[1..])).Some?
       else t.fixedIv.Some? && BestMatch(t.oracles, Xor(Xor(ps[0], iv), t.fixedIv.value)).Some?
  }

  lemma PadIsWhole(msg: seq<byte>, n: nat)
    requires 0 < n < 256
    ensures |Padding.Pkcs7Pad(msg, n)| % n == 0
  {
    var q := |msg| / n;
    assert |msg| == q * n + |msg| % n;
    assert (q + 1) * n == q * n + n;
    DivModUnique(|Padding.Pkcs7Pad(msg, n)|, n, q + 1, 0);
  }

  lemma PadSkipsBlock(msg: seq<byte>, n: nat)
    requires 0 < n < 256 && n <= |msg|
    ensures Padding.Pkcs7Pad(msg, n)[n..] == Padding.Pkcs7Pad(msg[n..], n)
  {
    DropOneBlock(|msg|, n);
  }

  /** What real decryption of a planted ciphertext gives. */
  lemma PlantedBlocks(t: Task, o: nat, iv: seq<byte>, msg: seq<byte>)
    requires Planted(t, o, iv, msg)
    ensures var ps := Padded(t, msg);
      && |ps| == |t.blocks| > 0 && |ps[0]| == t.cipher.blockLen
      && Xor(t.cipher.decrypt(t.Key(o), t.blocks[0]), iv) == ps[0]
      && t.cipher.decrypt(t.Key(o), t.blocks[0]) == Xor(ps[0], iv)
      && CbcTail(t.cipher, t.Key(o), t.blocks) == ps[1..]
      && Flatten(ps) == Padding.Pkcs7Pad(msg, t.cipher.blockLen)
  {
    var key, ps := t.Key(o), Padded(t, msg);
    CbcEncryptBlocks(t.cipher, key, iv, ps);
    CbcTailIsIvFree(t.cipher, key, iv, t.blocks);
    assert t.cipher.Usable(key);
    XorCancels(t.cipher.decrypt(key, t.blocks[0]), iv);
    PadIsWhole(msg, t.cipher.blockLen);
    FlattenChunks(Padding.Pkcs7Pad(msg, t.cipher.blockLen), t.cipher.blockLen);
  }

  /** With two blocks or more, the first holds message bytes only. */
  lemma PlantedTail(t: Task, o: nat, iv: seq<byte>, msg: seq<byte>)
    requires Planted(t, o, iv, msg) && |t.blocks| >= 2
    ensures var ps, n := Padded(t, msg), t.cipher.blockLen;
      && n <= |msg| && |ps| == |t.blocks|
      && ps[0] == msg[..n]
      && Flatten(ps[1..]) == Padding.Pkcs7Pad(msg[n..], n)
  {
    var n, ps, padded := t.cipher.blockLen, Padded(t, msg), Padding.Pkcs7Pad(msg, t.cipher.blockLen);
    PlantedBlocks(t, o, iv, msg);
    assert ps[1..] == Chunks(padded[n..], n);
    assert |padded[n..]| >= n;
    PadSkipsBlock(msg, n);
    assert padded == padded[..n] + padded[n..];
    assert Flatten(ps) == ps[0] + Flatten(ps[1..]);
  }

  /**
   * CBC completeness: a planted key is reported at its offset as CBC; with two blocks or more
   * its padding is recognised and the message is right from the second block on; with the
   * right fixed IV it is right altogether, for a single block too.
   */
  lemma CbcCompleteness(t: Task, o: nat, iv: seq<byte>, msg: seq<byte>)
    requires Planted(t, o, iv, msg) && Padded(t, msg) != [] && Recognised(t, o, iv, msg)
    ensures HitAt(t, o).Some? && HitAt(t, o).value in Hits(t)
    ensures var h, n := HitAt(t, o).value, t.cipher.blockLen;
      && h.mode == Cbc && h.keyOffset == o && h.key == t.Key(o)
      && (|t.blocks| >= 2 ==>
            && h.padding == Some(Padding.Pkcs7)
            && n <= |msg| == |h.plaintext|
            && h.plaintext == ResolveBlock0(t, h.key).bytes + msg[n..])
      && (t.fixedIv == Some(iv) ==>
            h.padding == Some(Padding.Pkcs7) && h.plaintext == msg && h.iv == Some(iv))
  {
    PlantedBlocks(t, o, iv, msg);
    PlantedPlaintext(t, o, iv, msg);
    Block0IsConsistent(t, t.Key(o));
    HitsAreExact(t);
  }

  lemma PlantedSeveral(t: Task, o: nat, iv: seq<byte>, msg: seq<byte>)
    requires Planted(t, o, iv, msg) && |t.blocks| >= 2
    ensures var b0, n := ResolveBlock0(t, t.Key(o)), t.cipher.blockLen;
      && n <= |msg|
      && Padding.Unpad(b0.bytes + Flatten(CbcTail(t.cipher, t.Key(o), t.blocks)))
         == (b0.bytes + msg[n..], Padding.Pkcs7)
      && (t.fixedIv == Some(iv) ==> b0.bytes + msg[n..] == msg)
  {
    var key, n := t.Key(o), t.cipher.blockLen;
    PlantedBlocks(t, o, iv, msg);
    PlantedTail(t, o, iv, msg);
    Padding.UnpadUndoesPad(ResolveBlock0(t, key).bytes, msg[n..], n);
    assert msg == msg[..n] + msg[n..];
  }

  lemma PlantedSingle(t: Task, o: nat, iv: seq<byte>, msg: seq<byte>)
    requires Planted(t, o, iv, msg) && |t.blocks| == 1 && t.fixedIv == Some(iv)
    ensures var b0 := ResolveBlock0(t, t.Key(o));
      Padding.Unpad(b0.bytes + Flatten(CbcTail(t.cipher, t.Key(o), t.blocks))) == (msg, Padding.Pkcs7)
  {
    PlantedBlocks(t, o, iv, msg);
    SingleBlock(t, t.Key(o), msg);
  }

  /** What is left of the decryption of a planted ciphertext once its padding is stripped. */
  lemma PlantedPlaintext(t: Task, o: nat, iv: seq<byte>, msg: seq<byte>)
    requires Planted(t, o, iv, msg)
    ensures var b0, n := ResolveBlock0(t, t.Key(o)), t.cipher.blockLen;
      var left := Padding.Unpad(b0.bytes + Flatten(CbcTail(t.cipher, t.Key(o), t.blocks)));
      && (|t.blocks| >= 2 ==> n <= |msg| && left == (b0.bytes + msg[n..], Padding.Pkcs7))
      && (t.fixedIv == Some(iv) ==> left == (msg, Padding.Pkcs7))
  {
    if |t.blocks| >= 2 {
      PlantedSeveral(t, o, iv, msg);
    } else if t.fixedIv == Some(iv) {
      PlantedSingle(t, o, iv, msg);
    }
  }

  lemma SingleBlock(t: Task, key: seq<byte>, msg: seq<byte>)
    requires 0 < t.cipher.blockLen < 256 && |t.blocks| == 1 == |Padded(t, msg)|
    requires Flatten(Padded(t, msg)) == Padding.Pkcs7Pad(msg, t.cipher.blockLen)
    ensures Padding.Unpad(Padded(t, msg)[0] + Flatten(CbcTail(t.cipher, key, t.blocks))) == (msg, Padding.Pkcs7)
  {
    var ps := Padded(t, msg);
    assert Flatten(ps) == ps[0] + Flatten(ps[1..]);
    assert CbcTail(t.cipher, key, t.blocks) == [] == ps[1..];
    Padding.UnpadUndoesPad([], msg, t.cipher.blockLen);
    assert [] + Padding.Pkcs7Pad(msg, t.cipher.blockLen) == Padding.Pkcs7Pad(msg, t.cipher.blockLen);
    assert [] + msg == msg;
  }

  /** A planted key is reported as CBC if and only if the oracles recognise it. */
  lemma CbcFoundIff(t: Task, o: nat, iv: seq<byte>, msg: seq<byte>)
    requires Planted(t, o, iv, msg)
    ensures |Padded(t, msg)| == |t.blocks| > 0
    ensures (exists h :: h in Hits(t) && h.keyOffset == o && h.mode == Cbc) <==> Recognised(t, o, iv, msg)
  {
    PlantedBlocks(t, o, iv, msg);
    HitsAreExact(t);
    if Recognised(t, o, iv, msg) {
      CbcCompleteness(t, o, iv, msg);
      assert HitAt(t, o).value in Hits(t);
    }
  }

  lemma HeadOfPrintable(t: Task, o: nat, iv: seq<byte>, msg: seq<byte>)
    requires Planted(t, o, iv, msg) && 3 * t.cipher.blockLen <= |msg|
    ensures |Padded(t, msg)| > 3 && HeadBytes(Padded(t, msg)[1..]) == msg[t.cipher.blockLen..3 * t.cipher.blockLen]
  {
    var n, padded := t.cipher.blockLen, Padding.Pkcs7Pad(msg, t.cipher.blockLen);
    AtLeastOneBlock(msg[3 * n..], n);
    PadSkipsBlock(msg, n);
    PadSkipsBlock(msg[n..], n);
    PadSkipsBlock(msg[n..][n..], n);
    assert msg[n..][n..][n..] == msg[3 * n..];
    SplitThree(padded, n);
    var a, b := padded[n..2 * n], padded[2 * n..3 * n];
    assert Padded(t, msg)[1..][..2] == [a] + [b];
    FlattenCons(a, [b]);
    FlattenCons(b, []);
    assert a + b == padded[n..3 * n] == msg[n..3 * n];
  }

  lemma SplitOne(s: seq<byte>, n: nat)
    requires 0 < n <= |s|
    ensures Chunks(s, n) == [s[..n]] + Chunks(s[n..], n)
  {}

  lemma SplitThree(s: seq<byte>, n: nat)
    requires 0 < n && 4 * n <= |s|
    ensures |Chunks(s, n)| > 3
    ensures Chunks(s, n)[1] == s[n..2 * n] && Chunks(s, n)[2] == s[2 * n..3 * n]
  {
    var later, last, rest := s[n..], s[2 * n..], s[3 * n..];
    assert later[n..] == last && last[n..] == rest;
    SplitOne(s, n);
    SplitOne(later, n);
    SplitOne(last, n);
    SplitOne(rest, n);
    assert later[..n] == s[n..2 * n] && last[..n] == s[2 * n..3 * n];
  }

  /**
   * A printable message under the utf8 oracle: its key is reported as CBC exactly when the ECB
   * reading is rejected and blocks 1..2 neither start nor end inside a character.
   */
  lemma PrintableCbcFoundIff(t: Task, o: nat, iv: seq<byte>, msg: seq<byte>)
    requires Planted(t, o, iv, msg) && 3 * t.cipher.blockLen <= |msg|
    requires t.oracles == [Utf8Oracle()] && Utf8.AllPrintable(msg)
    ensures (exists h :: h in Hits(t) && h.keyOffset == o && h.mode == Cbc) <==>
      && !Utf8Verify(EcbHead(t, t.Key(o)))
      && Utf8.CutsCleanly(msg, t.cipher.blockLen) && Utf8.CutsCleanly(msg, 3 * t.cipher.blockLen)
  {
    var n := t.cipher.blockLen;
    CbcFoundIff(t, o, iv, msg);
    HeadOfPrintable(t, o, iv, msg);
    PrintableSliceIff(msg, n, 3 * n);
    BestOfOne(Utf8Oracle(), EcbHead(t, t.Key(o)));
    BestOfOne(Utf8Oracle(), msg[n..3 * n]);
  }

  // -------------------------------------------------------- ECB completeness

  lemma EcbPlaintext(t: Task, key: seq<byte>, msg: seq<byte>)
    requires t.Valid() && t.cipher.blockLen < 256 && t.cipher.Usable(key)
    requires t.blocks == EcbEncrypt(t.cipher, key, Padded(t, msg))
    ensures EcbDecrypt(t.cipher, key, t.blocks) == Padded(t, msg)
    ensures Padding.Unpad(Flatten(Padded(t, msg))) == (msg, Padding.Pkcs7)
  {
    var n := t.cipher.blockLen;
    EcbRestores(t.cipher, key, Padded(t, msg));
    PadIsWhole(msg, n);
    FlattenChunks(Padding.Pkcs7Pad(msg, n), n);
    Padding.UnpadUndoesPad([], msg, n);
    assert [] + Padding.Pkcs7Pad(msg, n) == Padding.Pkcs7Pad(msg, n) && [] + msg == msg;
  }

  /** The ciphertext is the ECB encryption of the padded message, and its key lies at `o`. */
  ghost predicate EcbPlanted(t: Task, o: nat, msg: seq<byte>) {
    && t.Valid() && t.cipher.blockLen < 256
    && o + t.cipher.keyLen <= |t.dump| && t.cipher.accepts(t.Key(o))
    && t.blocks == EcbEncrypt(t.cipher, t.Key(o), Padded(t, msg))
  }

  /** Such a key is reported with the message, once the head of the message is accepted. */
  lemma EcbCompleteness(t: Task, o: nat, msg: seq<byte>)
    requires EcbPlanted(t, o, msg) && BestMatch(t.oracles, HeadBytes(Padded(t, msg))).Some?
    ensures HitAt(t, o).Some? && HitAt(t, o).value in Hits(t)
    ensures var h := HitAt(t, o).value;
      h.mode == Ecb && h.key == t.Key(o) && h.keyOffset == o && h.padding == Some(Padding.Pkcs7) && h.plaintext == msg
  {
    EcbPlaintext(t, t.Key(o), msg);
    HitsAreExact(t);
  }

  // -------------------------------------------------------------- IV pinning

  /** A window decodes block 0 to the true block 0 iff it is the true IV. */
  lemma OnlyTheIvDecodes(t: Task, o: nat, iv: seq<byte>, msg: seq<byte>, w: seq<byte>)
    requires Planted(t, o, iv, msg) && |w| == t.cipher.blockLen
    ensures Padded(t, msg) != []
    ensures Xor(t.cipher.decrypt(t.Key(o), t.blocks[0]), w) == Padded(t, msg)[0] <==> w == iv
  {
    PlantedBlocks(t, o, iv, msg);
    assert t.cipher.Usable(t.Key(o));
    XorInjective(t.cipher.decrypt(t.Key(o), t.blocks[0]), w, iv);
  }

  /** `p` is the first offset at which `iv` occurs. */
  ghost predicate FirstAt(s: IvSearch.Search, iv: seq<byte>, p: nat) {
    && p + |iv| <= |s.dump| && |iv| == s.block && s.dump[p..p + |iv|] == iv
    && forall q: nat :: q < p ==> s.Window(q) != iv
  }

  lemma SameValueSameWorth(s: IvSearch.Search, p: nat, q: nat)
    requires p < s.Total() && q < s.Total() && s.Window(p) == s.Window(q)
    ensures IvSearch.CandidateAt(s, p).Some? <==> IvSearch.CandidateAt(s, q).Some?
    ensures IvSearch.CandidateAt(s, p).Some? && p < q ==>
      IvSearch.Before(IvSearch.CandidateAt(s, p).value, IvSearch.CandidateAt(s, q).value)
  {}

  /** The text an IV candidate is judged on is the first min(3, n) plaintext blocks. */
  lemma JudgedText(t: Task, o: nat, iv: seq<byte>, msg: seq<byte>)
    requires Planted(t, o, iv, msg)
    ensures var ps, s := Padded(t, msg), IvTask(t, t.Key(o));
      Xor(s.dec0, iv) + s.tail == Flatten(ps[..Min(3, |ps|)])
  {
    var ps := Padded(t, msg);
    PlantedBlocks(t, o, iv, msg);
    FlattenCons(ps[0], ps[1..Min(3, |ps|)]);
    assert ps[..Min(3, |ps|)] == [ps[0]] + ps[1..Min(3, |ps|)];
    assert ps[1..][..Min(VERIFY_BLOCKS, |ps[1..]|)] == ps[1..Min(3, |ps|)];
  }

  /**
   * The true IV occurs in the dump, at `p` first; the oracles accept the first min(3, n)
   * plaintext blocks; and every accepted window of another value ranks strictly lower.
   */
  ghost predicate IvStandsOut(t: Task, o: nat, iv: seq<byte>, msg: seq<byte>, p: nat)
    requires Planted(t, o, iv, msg)
  {
    var s, ps := IvTask(t, t.Key(o)), Padded(t, msg);
    && FirstAt(s, iv, p)
    && BestMatch(t.oracles, Flatten(ps[..Min(3, |ps|)])).Some?
    && forall q: nat ::
         q < s.Total() && s.Window(q) != iv
         && IvSearch.CandidateAt(s, p).Some? && IvSearch.CandidateAt(s, q).Some? ==>
           IvSearch.Outranks(IvSearch.CandidateAt(s, p).value, IvSearch.CandidateAt(s, q).value)
  }

  /** IV pinning: an IV that stands out is reported at its first offset, with the complete message. */
  lemma IvPinning(t: Task, o: nat, iv: seq<byte>, msg: seq<byte>, p: nat)
    requires Planted(t, o, iv, msg) && Padded(t, msg) != [] && Recognised(t, o, iv, msg)
    requires t.fixedIv.None? && t.scanIv
    requires IvStandsOut(t, o, iv, msg, p)
    ensures HitAt(t, o).Some? && HitAt(t, o).value in Hits(t)
    ensures HitAt(t, o).value.iv == Some(iv) && HitAt(t, o).value.ivOffset == Some(p)
    ensures HitAt(t, o).value.mode == Cbc && HitAt(t, o).value.plaintext == msg
  {
    var s := IvTask(t, t.Key(o));
    JudgedText(t, o, iv, msg);
    assert IvSearch.CandidateAt(s, p).Some?;
    forall q: nat | q != p && IvSearch.CandidateAt(s, q).Some?
      ensures IvSearch.Before(IvSearch.CandidateAt(s, p).value, IvSearch.CandidateAt(s, q).value)
    {
      if s.Window(q) == iv {
        assert p < q;
        SameValueSameWorth(s, p, q);
      }
    }
    IvSearch.FirstIsBest(s, p);
    CbcCompleteness(t, o, iv, msg);
    PlantedBlocks(t, o, iv, msg);
    PlantedTail(t, o, iv, msg);
    assert msg == msg[..s.block] + msg[s.block..];
  }

  /** Window `p` is accepted as an IV and ranks before every other accepted one. */
  ghost predicate IvWins(s: IvSearch.Search, p: nat) {
    && IvSearch.CandidateAt(s, p).Some?
    && forall q: nat :: q != p && IvSearch.CandidateAt(s, q).Some? ==>
         IvSearch.Before(IvSearch.CandidateAt(s, p).value, IvSearch.CandidateAt(s, q).value)
  }

  /** The offset an IV search reports is the one that wins; none is reported iff no window is accepted. */
  lemma BestIvIff(s: IvSearch.Search, p: nat)
    ensures IvSearch.BestIvs(s) != [] && IvSearch.BestIvs(s)[0].offset == p <==> IvWins(s, p)
    ensures IvWins(s, p) ==> IvSearch.BestIvs(s)[0] == IvSearch.CandidateAt(s, p).value
  {
    if IvWins(s, p) {
      IvSearch.FirstIsBest(s, p);
    }
    var best := IvSearch.BestIvs(s);
    if best != [] && best[0].offset == p {
      IvSearch.BestIvsIsTop(s);
      IvSearch.AcceptedIsExact(s);
      assert best[0] in IvSearch.Accepted(s);
      forall q: nat | q != p && IvSearch.CandidateAt(s, q).Some?
        ensures IvSearch.Before(IvSearch.CandidateAt(s, p).value, IvSearch.CandidateAt(s, q).value)
      {
        var c := IvSearch.CandidateAt(s, q).value;
        assert IvSearch.CandidateAt(s, c.offset) == Some(c);
        IvSearch.HeadIsMinimal(best, IvSearch.Accepted(s), IvSearch.CANDIDATES_MAX, c);
      }
    }
  }

  /** A CBC hit of a search for the IV reports exactly the window that wins, if one does. */
  lemma IvReportedIff(t: Task, o: nat, p: nat)
    requires t.Valid() && HitAt(t, o).Some? && HitAt(t, o).value.mode == Cbc && t.fixedIv.None? && t.scanIv
    ensures var h, s := HitAt(t, o).value, IvTask(t, t.Key(o));
      && (h.ivOffset == Some(p) <==> IvWins(s, p))
      && (h.ivOffset == Some(p) ==> p < s.Total() && h.iv == Some(s.Window(p)))
      && (h.iv.Some? <==> h.ivOffset.Some?)
  {
    BestIvIff(IvTask(t, t.Key(o)), p);
  }

  /**
   * IV pinning, exactly: the IV reported for a recognised message is the true one iff some
   * occurrence of it in the dump wins, and then the message is complete.
   */
  lemma IvPinningIff(t: Task, o: nat, iv: seq<byte>, msg: seq<byte>)
    requires Planted(t, o, iv, msg) && Padded(t, msg) != [] && Recognised(t, o, iv, msg)
    requires t.fixedIv.None? && t.scanIv
    ensures HitAt(t, o).Some? && HitAt(t, o).value in Hits(t) && HitAt(t, o).value.mode == Cbc
    ensures HitAt(t, o).value.iv == Some(iv) <==> exists p: nat :: WinsAs(IvTask(t, t.Key(o)), p, iv)
    ensures HitAt(t, o).value.iv == Some(iv) ==> HitAt(t, o).value.plaintext == msg
  {
    CbcCompleteness(t, o, iv, msg);
    var h, s := HitAt(t, o).value, IvTask(t, t.Key(o));
    if h.iv.Some? {
      IvReportedIff(t, o, 0);
      IvReportedIff(t, o, h.ivOffset.value);
      if h.iv == Some(iv) {
        assert WinsAs(s, h.ivOffset.value, iv);
        RightIvRightMessage(t, o, iv, msg);
      }
    }
    if p: nat :| WinsAs(s, p, iv) {
      IvReportedIff(t, o, p);
    }
  }

  ghost predicate WinsAs(s: IvSearch.Search, p: nat, iv: seq<byte>) {
    p < s.Total() && s.Window(p) == iv && IvWins(s, p)
  }

  lemma RightIvRightMessage(t: Task, o: nat, iv: seq<byte>, msg: seq<byte>)
    requires Planted(t, o, iv, msg) && |t.blocks| >= 2
    requires HitAt(t, o).Some? && HitAt(t, o).value.mode == Cbc && HitAt(t, o).value.iv == Some(iv)
    ensures HitAt(t, o).value.plaintext == msg
  {
    var n, b0 := t.cipher.blockLen, ResolveBlock0(t, t.Key(o));
    Block0IsConsistent(t, t.Key(o));
    PlantedBlocks(t, o, iv, msg);
    PlantedTail(t, o, iv, msg);
    PlantedSeveral(t, o, iv, msg);
    assert b0.bytes == msg[..n] && msg == msg[..n] + msg[n..];
  }

  // ------------------------------------------------- the hypotheses can be met

  lemma XorWithZeros(b: seq<byte>)
    ensures Xor(b, Padding.Repeat(0, |b|)) == b
  {
    forall i | 0 <= i < |b|
      ensures b[i] ^ 0 == b[i]
    {}
  }

  /** Accepts two texts and nothing else. */
  function ExactOracle(a: seq<byte>, b: seq<byte>): Oracle {
    Oracle("exact", s => s == a || s == b, High)
  }

  lemma ExactMatch(a: seq<byte>, b: seq<byte>, s: seq<byte>)
    ensures BestMatch([ExactOracle(a, b)], s).Some? <==> s == a || s == b
  {
    BestMatchIsBest([ExactOracle(a, b)], s);
    assert [ExactOracle(a, b)][0].verify(s) <==> s == a || s == b;
  }

  /** A dump that starts with the IV and the key; the oracle knows the last block and the whole padded message. */
  function PinningTask(c: BlockCipher, key: seq<byte>, iv: seq<byte>, msg: seq<byte>, after: seq<byte>): Task
    requires 0 < c.blockLen < 256 && c.blockLen <= |msg| < 2 * c.blockLen
  {
    var padded := Padding.Pkcs7Pad(msg, c.blockLen);
    Task(iv + key + after, CbcEncrypt(c, key, iv, Chunks(padded, c.blockLen)), c,
         [ExactOracle(padded[c.blockLen..], padded)], true, None, "")
  }

  lemma PinningBlocks(c: BlockCipher, key: seq<byte>, iv: seq<byte>, msg: seq<byte>, after: seq<byte>)
    requires c.WellFormed() && c.blockLen < 256 && c.Usable(key)
    requires |iv| == c.blockLen <= |msg| < 2 * c.blockLen
    ensures var t, padded := PinningTask(c, key, iv, msg, after), Padding.Pkcs7Pad(msg, c.blockLen);
      && Planted(t, |iv|, iv, msg) && t.Key(|iv|) == key
      && |padded| == 2 * c.blockLen
      && Padded(t, msg) == [padded[..c.blockLen], padded[c.blockLen..]]
      && HeadBytes(Padded(t, msg)[1..]) == padded[c.blockLen..]
      && Flatten(Padded(t, msg)) == padded
  {
    var t, n, padded := PinningTask(c, key, iv, msg, after), c.blockLen, Padding.Pkcs7Pad(msg, c.blockLen);
    DivModUnique(|msg|, n, 1, |msg| - n);
    AnyMessageCanBePlanted(c, iv, key, after, iv, msg, t.oracles, None);
    assert t.Key(|iv|) == key;
    var last := padded[n..];
    assert Chunks(last[n..], n) == [] && last[..n] == last;
    assert Chunks(last, n) == [last];
    FlattenCons(last, []);
    assert Padded(t, msg)[1..] == [last];
    PlantedBlocks(t, |iv|, iv, msg);
  }

  /** The ECB reading of such a ciphertext is neither text, unless the IV is zero. */
  lemma PinningEcbHead(c: BlockCipher, key: seq<byte>, iv: seq<byte>, msg: seq<byte>, after: seq<byte>)
    requires c.WellFormed() && c.blockLen < 256 && c.Usable(key)
    requires |iv| == c.blockLen <= |msg| < 2 * c.blockLen && iv != Padding.Repeat(0, |iv|)
    ensures var t, padded := PinningTask(c, key, iv, msg, after), Padding.Pkcs7Pad(msg, c.blockLen);
      EcbHead(t, key) != padded && EcbHead(t, key) != padded[c.blockLen..]
  {
    var t, n, padded := PinningTask(c, key, iv, msg, after), c.blockLen, Padding.Pkcs7Pad(msg, c.blockLen);
    PinningBlocks(c, key, iv, msg, after);
    PlantedBlocks(t, |iv|, iv, msg);
    EcbReencrypts(c, key, t.blocks);
    var ds := EcbDecrypt(c, key, t.blocks);
    assert ds == [ds[0]] + [ds[1]] && ds[..2] == ds;
    FlattenCons(ds[0], [ds[1]]);
    FlattenCons(ds[1], []);
    XorWithZeros(padded[..n]);
    XorInjective(padded[..n], iv, Padding.Repeat(0, n));
  }

  /**
   * The hypotheses of CBC completeness and of IV pinning are met for every cipher, key,
   * non-zero IV and message that pads to two blocks: it is found together with its IV.
   */
  lemma PinningHappens(c: BlockCipher, key: seq<byte>, iv: seq<byte>, msg: seq<byte>, after: seq<byte>)
    requires c.WellFormed() && c.blockLen < 256 && c.Usable(key)
    requires |iv| == c.blockLen <= |msg| < 2 * c.blockLen && iv != Padding.Repeat(0, |iv|)
    ensures var t := PinningTask(c, key, iv, msg, after);
      && Planted(t, |iv|, iv, msg) && Padded(t, msg) != [] && Recognised(t, |iv|, iv, msg)
      && IvStandsOut(t, |iv|, iv, msg, 0)
      && HitAt(t, |iv|).Some? && HitAt(t, |iv|).value.plaintext == msg && HitAt(t, |iv|).value.iv == Some(iv)
  {
    var t, padded := PinningTask(c, key, iv, msg, after), Padding.Pkcs7Pad(msg, c.blockLen);
    PinningBlocks(c, key, iv, msg, after);
    PinningEcbHead(c, key, iv, msg, after);
    ExactMatch(padded[c.blockLen..], padded, EcbHead(t, key));
    ExactMatch(padded[c.blockLen..], padded, padded[c.blockLen..]);
    ExactMatch(padded[c.blockLen..], padded, padded);
    PinningStandsOut(c, key, iv, msg, after);
    IvPinning(t, |iv|, iv, msg, 0);
  }

  lemma PinningStandsOut(c: BlockCipher, key: seq<byte>, iv: seq<byte>, msg: seq<byte>, after: seq<byte>)
    requires c.WellFormed() && c.blockLen < 256 && c.Usable(key)
    requires |iv| == c.blockLen <= |msg| < 2 * c.blockLen
    ensures var t := PinningTask(c, key, iv, msg, after);
      Planted(t, |iv|, iv, msg) && IvStandsOut(t, |iv|, iv, msg, 0)
  {
    var t, n, padded := PinningTask(c, key, iv, msg, after), c.blockLen, Padding.Pkcs7Pad(msg, c.blockLen);
    PinningBlocks(c, key, iv, msg, after);
    PlantedBlocks(t, |iv|, iv, msg);
    var s, ps := IvTask(t, key), Padded(t, msg);
    assert ps[..Min(3, |ps|)] == ps;
    assert s.Window(0) == iv;
    ExactMatch(padded[n..], padded, padded);
    forall q: nat | q < s.Total() && s.Window(q) != iv
      ensures IvSearch.CandidateAt(s, q).None?
    {
      var text := Xor(s.dec0, s.Window(q)) + s.tail;
      ExactMatch(padded[n..], padded, text);
      OnlyTheIvDecodes(t, |iv|, iv, msg, s.Window(q));
      assert text[..n] == Xor(s.dec0, s.Window(q));
    }
  }

  // ---------------------------------------------------- a CBC verdict that fails

  /** A block of garbage in front of a sample. */
  function GarbageMessage(s: seq<byte>): seq<byte> {
    Samples.GARBAGE + s
  }

  /** A dump that is the key, and the CBC encryption of that message under a zero IV, which is given. */
  function CbcSampleTask(c: BlockCipher, key: seq<byte>, o: Oracle, s: seq<byte>): Task
    requires c.blockLen == 16
  {
    var iv := Padding.Repeat(0, 16);
    Task(key, CbcEncrypt(c, key, iv, Chunks(Padding.Pkcs7Pad(GarbageMessage(s), 16), 16)), c, [o], true, Some(iv), "")
  }

  lemma GarbagePadded(s: seq<byte>)
    requires |s| == 32
    ensures Padding.Pkcs7Pad(GarbageMessage(s), 16) == Samples.GARBAGE + s + Samples.PAD_BLOCK
    ensures Chunks(Padding.Pkcs7Pad(GarbageMessage(s), 16), 16)[0] == Samples.GARBAGE
  {
    assert |GarbageMessage(s)| == 48;
    assert Padding.Pkcs7Pad(GarbageMessage(s), 16)[..16] == Samples.GARBAGE;
  }

  lemma CbcSampleIsPlanted(c: BlockCipher, key: seq<byte>, o: Oracle, s: seq<byte>)
    requires c.WellFormed() && c.blockLen == 16 && c.Usable(key) && |s| == 32
    ensures var t := CbcSampleTask(c, key, o, s);
      && t.Key(0) == key && Planted(t, 0, Padding.Repeat(0, 16), GarbageMessage(s)) && |t.blocks| == 4
      && HeadBytes(Padded(t, GarbageMessage(s))[1..]) == s
  {
    var t, iv, msg := CbcSampleTask(c, key, o, s), Padding.Repeat(0, 16), GarbageMessage(s);
    AnyMessageCanBePlanted(c, [], key, [], iv, msg, [o], Some(iv));
    assert [] + key + [] == key;
    assert t.Key(0) == key;
    HeadOfPrintable(t, 0, iv, msg);
    PlantedBlocks(t, 0, iv, msg);
    FlattenLength(Padded(t, msg), 16);
    GarbagePadded(s);
  }

  /** The ECB reading starts with the garbage. */
  lemma CbcSampleEcbHead(c: BlockCipher, key: seq<byte>, o: Oracle, s: seq<byte>) returns (w: seq<byte>)
    requires c.WellFormed() && c.blockLen == 16 && c.Usable(key) && |s| == 32
    ensures |w| == 16 && EcbHead(CbcSampleTask(c, key, o, s), key) == Samples.GARBAGE + w
  {
    var t, iv, msg := CbcSampleTask(c, key, o, s), Padding.Repeat(0, 16), GarbageMessage(s);
    CbcSampleIsPlanted(c, key, o, s);
    PlantedBlocks(t, 0, iv, msg);
    GarbagePadded(s);
    XorWithZeros(Samples.GARBAGE);
    EcbReencrypts(c, key, t.blocks);
    var ds := EcbDecrypt(c, key, t.blocks);
    w := ds[1];
    assert ds[..2] == [ds[0]] + [ds[1]];
    FlattenCons(ds[0], [ds[1]]);
    FlattenCons(ds[1], []);
  }

  lemma CbcSampleIsFound(c: BlockCipher, key: seq<byte>, o: Oracle, s: seq<byte>)
    requires c.WellFormed() && c.blockLen == 16 && c.Usable(key) && Samples.IsSample(o, s)
    ensures var t := CbcSampleTask(c, key, o, s);
      && |s| == 32 && Planted(t, 0, Padding.Repeat(0, 16), GarbageMessage(s)) && Padded(t, GarbageMessage(s)) != []
      && Recognised(t, 0, Padding.Repeat(0, 16), GarbageMessage(s))
  {
    var t := CbcSampleTask(c, key, o, s);
    Samples.SampleIsAccepted(o, s);
    CbcSampleIsPlanted(c, key, o, s);
    PlantedBlocks(t, 0, Padding.Repeat(0, 16), GarbageMessage(s));
    var w := CbcSampleEcbHead(c, key, o, s);
    Samples.FrontRevokes(o, s, w);
    BestOfOne(o, EcbHead(t, key));
    BestOfOne(o, s);
  }

  /**
   * In CBC no verdict but that on a known fragment carries in every case: for each of the other
   * oracles, every cipher with 16-byte blocks and every key there is a hit judged by it on
   * blocks 1..2, whose whole decryption, with the true IV, it rejects.
   */
  lemma CbcVerdictCanFail(c: BlockCipher, key: seq<byte>, o: Oracle, s: seq<byte>) returns (t: Task, h: Hit)
    requires c.WellFormed() && c.blockLen == 16 && c.Usable(key) && Samples.IsSample(o, s)
    ensures t.Valid() && t.cipher == c && t.oracles == [o]
    ensures h in Hits(t) && h.mode == Cbc && h.key == key && JudgedBy(t, h, 0) && Judged(t, h) == s
    ensures h.plaintext == GarbageMessage(s) && h.padding.Some? && !o.verify(Full(t, h))
  {
    var iv, msg := Padding.Repeat(0, 16), GarbageMessage(s);
    t := CbcSampleTask(c, key, o, s);
    CbcSampleIsFound(c, key, o, s);
    CbcSampleIsPlanted(c, key, o, s);
    PlantedBlocks(t, 0, iv, msg);
    CbcCompleteness(t, 0, iv, msg);
    h := HitAt(t, 0).value;
    var i := SomeOracleJudged(t, h);
    CbcSampleFull(t, iv, s, h);
    Samples.FrontRevokes(o, s, s[..16]);
  }

  lemma CbcSampleFull(t: Task, iv: seq<byte>, s: seq<byte>, h: Hit)
    requires t.Valid() && t.cipher.blockLen == 16 && |s| == 32 && |t.blocks| == 4
    requires h.padding == Some(Padding.Pkcs7) && h.plaintext == GarbageMessage(s)
    ensures Full(t, h) == Samples.GARBAGE + s + Samples.PAD_BLOCK
  {
    FlattenLength(t.blocks, 16);
  }
}
