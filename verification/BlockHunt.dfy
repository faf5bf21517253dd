/** The key hunt for block ciphers in ECB and CBC mode. */
module BlockHunt {
  import opened Bytes
  import opened Ciphers
  import opened Oracles
  import opened Report
  import opened Results
  import opened Windows
  import IvSearch
  import Padding

  /** Blocks decrypted before a candidate key is judged. */
  const VERIFY_BLOCKS: nat := 2

  /** The arguments of one hunt. */
  datatype Task = Task(
    dump: seq<byte>, blocks: seq<seq<byte>>, cipher: BlockCipher, oracles: seq<Oracle>,
    scanIv: bool, fixedIv: Option<seq<byte>>, algo: string)
  {
    ghost predicate Valid() {
      && cipher.WellFormed()
      && blocks != [] && AreBlocks(blocks, cipher.blockLen)
      && (fixedIv.Some? ==> |fixedIv.value| == cipher.blockLen)
    }

    function Total(): nat {
      WindowCount(|dump|, cipher.keyLen)
    }

    function Key(o: nat): seq<byte>
      requires o < Total()
    {
      dump[o..o + cipher.keyLen]
    }
  }

  // -------------------------------------------------------- specification

  /** The first `VERIFY_BLOCKS` blocks of a list, as bytes. */
  function HeadBytes(blocks: seq<seq<byte>>): seq<byte> {
    Flatten(blocks[..Min(VERIFY_BLOCKS, |blocks|)])
  }

  function EcbHead(t: Task, key: seq<byte>): seq<byte> {
    HeadBytes(EcbDecrypt(t.cipher, key, t.blocks))
  }

  /** What CBC verification looks at: blocks 1..2, or block 0 when it is the only one and the IV is known. */
  function CbcHead(t: Task, key: seq<byte>): Option<seq<byte>>
    requires t.blocks != []
  {
    if |t.blocks| > 1 then Some(HeadBytes(CbcTail(t.cipher, key, t.blocks)))
    else if t.fixedIv.Some? then Some(Xor(t.cipher.decrypt(key, t.blocks[0]), t.fixedIv.value))
    else None
  }

  function IvTask(t: Task, key: seq<byte>): IvSearch.Search
    requires t.blocks != []
  {
    IvSearch.Search(t.dump, t.cipher.decrypt(key, t.blocks[0]),
                    HeadBytes(CbcTail(t.cipher, key, t.blocks)), t.cipher.blockLen, t.oracles)
  }

  /** Block 0 of a CBC hit and the IV it rests on. */
  datatype Block0 = Block0(
    iv: Option<seq<byte>>, ivOffset: Option<nat>, bytes: seq<byte>, candidates: seq<IvSearch.IvCandidate>)

  function Unknown(n: nat): seq<byte> {
    Padding.Repeat(0x3F, n)
  }

  function ResolveBlock0(t: Task, key: seq<byte>): Block0
    requires t.blocks != []
  {
    var dec0 := t.cipher.decrypt(key, t.blocks[0]);
    match t.fixedIv
    case Some(iv) => Block0(Some(iv), None, Xor(dec0, iv), [])
    case None =>
      if t.scanIv && |t.dump| >= t.cipher.blockLen then
        var cs := IvSearch.BestIvs(IvTask(t, key));
        if cs == [] then Block0(None, None, Unknown(t.cipher.blockLen), [])
        else Block0(Some(cs[0].iv), Some(cs[0].offset), cs[0].block0, cs)
      else Block0(None, None, Unknown(t.cipher.blockLen), [])
  }

  function MakeHit(t: Task, mode: Mode, o: nat, key: seq<byte>, b0: Block0, pt: seq<byte>, m: Match): Hit {
    var (left, padding) := Padding.Unpad(pt);
    Hit(t.algo, mode, key, o, b0.iv, b0.ivOffset, None, Some(padding), left, m, b0.candidates)
  }

  /** The verdict on the window at `o`. */
  function HitAt(t: Task, o: nat): Option<Hit> {
    if t.blocks == [] || o >= t.Total() || !t.cipher.accepts(t.Key(o)) then None
    else
      var key := t.Key(o);
      match BestMatch(t.oracles, EcbHead(t, key))
      case Some(m) =>
        var pt := Flatten(EcbDecrypt(t.cipher, key, t.blocks));
        Some(MakeHit(t, Ecb, o, key, Block0(None, None, [], []), pt, m))
      case None =>
        match CbcHead(t, key)
        case None => None
        case Some(head) =>
          match BestMatch(t.oracles, head)
          case None => None
          case Some(m) =>
            var b0 := ResolveBlock0(t, key);
            Some(MakeHit(t, Cbc, o, key, b0, b0.bytes + Flatten(CbcTail(t.cipher, key, t.blocks)), m))
  }

  function Verdicts(t: Task): nat -> Option<Hit> {
    (o: nat) => HitAt(t, o)
  }

  /** All hits of a hunt, by offset. */
  function Hits(t: Task): seq<Hit> {
    Collect(Verdicts(t), 0, t.Total())
  }

  // --------------------------------------------------------- implementation

  /** Decrypts each block in place; stops at the first rejected key. */
  method DecryptEach(c: BlockCipher, key: seq<byte>, blocks: seq<seq<byte>>)
    returns (ok: bool, out: seq<seq<byte>>)
    requires c.WellFormed() && |key| == c.keyLen && AreBlocks(blocks, c.blockLen)
    ensures ok == (c.accepts(key) || blocks == [])
    ensures ok ==> out == EcbDecrypt(c, key, blocks) && AreBlocks(out, c.blockLen)
  {
    out := blocks;
    for i := 0 to |blocks|
      invariant |out| == |blocks|
      invariant i == 0 || c.accepts(key)
      invariant forall j :: 0 <= j < i ==> out[j] == c.decrypt(key, blocks[j]) && |out[j]| == c.blockLen
      invariant forall j :: i <= j < |blocks| ==> out[j] == blocks[j]
    {
      if !c.accepts(key) {
        return false, out;
      }
      assert c.Usable(key);
      out := out[i := c.decrypt(key, out[i])];
    }
    ok := true;
  }

  /** Mixes a block with a mask of the same length, byte by byte and in place. */
  method XorInto(b: seq<byte>, mask: seq<byte>, block: nat) returns (out: seq<byte>)
    requires |b| == |mask| == block
    ensures out == Xor(b, mask)
  {
    out := b;
    for j := 0 to block
      invariant |out| == block
      invariant forall i :: 0 <= i < j ==> out[i] == b[i] ^ mask[i]
      invariant forall i :: j <= i < block ==> out[i] == b[i]
    {
      out := out[j := out[j] ^ mask[j]];
    }
  }

  /** Decrypts blocks 1..=count and XORs each with the ciphertext block before it. */
  method DecryptTail(t: Task, key: seq<byte>, count: nat) returns (ok: bool, tail: seq<seq<byte>>)
    requires t.Valid() && |key| == t.cipher.keyLen
    requires count < |t.blocks|
    ensures ok == (t.cipher.accepts(key) || count == 0)
    ensures ok ==> tail == CbcTail(t.cipher, key, t.blocks)[..count]
  {
    var c, later := t.cipher, t.blocks[1..count + 1];
    ok, tail := DecryptEach(c, key, later);
    if !ok {
      return;
    }
    for i := 0 to |tail|
      invariant |tail| == count
      invariant forall j :: 0 <= j < i ==> tail[j] == Xor(c.decrypt(key, t.blocks[j + 1]), t.blocks[j])
      invariant forall j :: i <= j < |tail| ==> tail[j] == c.decrypt(key, t.blocks[j + 1]) && |tail[j]| == c.blockLen
    {
      var prev := t.blocks[i];
      var mixed := XorInto(tail[i], prev, c.blockLen);
      tail := tail[i := mixed];
    }
  }

  method DecryptBlock0(t: Task, key: seq<byte>, iv: seq<byte>) returns (b0: seq<byte>)
    requires t.Valid() && t.cipher.Usable(key) && |iv| == t.cipher.blockLen
    ensures b0 == Xor(t.cipher.decrypt(key, t.blocks[0]), iv)
  {
    b0 := t.cipher.decrypt(key, t.blocks[0]);
    b0 := XorInto(b0, iv, t.cipher.blockLen);
  }

  /** Strips the padding off `plaintext` in place and builds the hit. */
  method FinalizeHit(t: Task, mode: Mode, o: nat, key: seq<byte>, b0: Block0, plaintext: Padding.ByteVec, m: Match)
    returns (hit: Hit)
    modifies plaintext
    ensures hit == MakeHit(t, mode, o, key, b0, old(plaintext.data), m)
    ensures plaintext.data == hit.plaintext
  {
    var padding: Option<Padding.Label>;
    var stripped := Padding.StripPkcs7(plaintext);
    if stripped {
      padding := Some(Padding.Pkcs7);
    } else {
      stripped := Padding.StripZero(plaintext);
      padding := if stripped then Some(Padding.Zero) else None;
    }
    hit := Hit(t.algo, mode, key, o, b0.iv, b0.ivOffset, None, padding, plaintext.data, m, b0.candidates);
  }

  lemma EcbDecryptPrefix(c: BlockCipher, key: seq<byte>, blocks: seq<seq<byte>>, k: nat)
    requires k <= |blocks|
    ensures EcbDecrypt(c, key, blocks[..k]) == EcbDecrypt(c, key, blocks)[..k]
  {}

  /** The body of the search: judges one window. */
  method HuntWindow(t: Task, o: nat) returns (hit: Option<Hit>)
    requires t.Valid() && o < t.Total()
    ensures hit == HitAt(t, o)
  {
    var key := t.Key(o);
    var k := Min(VERIFY_BLOCKS, |t.blocks|);
    var ok, head := DecryptEach(t.cipher, key, t.blocks[..k]);
    if !ok {
      return None;
    }
    EcbDecryptPrefix(t.cipher, key, t.blocks, k);
    var matched := BestMatch(t.oracles, Flatten(head));
    if matched.Some? {
      var _, all := DecryptEach(t.cipher, key, t.blocks);
      var pt := new Padding.ByteVec(Flatten(all));
      var found := FinalizeHit(t, Ecb, o, key, Block0(None, None, [], []), pt, matched.value);
      return Some(found);
    }

    var cbcHead: Option<seq<byte>>;
    var verifiable := Min(VERIFY_BLOCKS, |t.blocks| - 1);
    if verifiable != 0 {
      var _, tailHead := DecryptTail(t, key, verifiable);
      cbcHead := Some(Flatten(tailHead));
    } else if t.fixedIv.Some? {
      var b0 := DecryptBlock0(t, key, t.fixedIv.value);
      cbcHead := Some(b0);
    } else {
      cbcHead := None;
    }
    assert cbcHead == CbcHead(t, key);
    if cbcHead.None? {
      return None;
    }
    matched := BestMatch(t.oracles, cbcHead.value);
    if matched.None? {
      return None;
    }

    var _, tail := DecryptTail(t, key, |t.blocks| - 1);
    assert tail == CbcTail(t.cipher, key, t.blocks);
    var b0 := ResolveIv(t, key, tail);
    var pt := new Padding.ByteVec(b0.bytes + Flatten(tail));
    var found := FinalizeHit(t, Cbc, o, key, b0, pt, matched.value);
    return Some(found);
  }

  /** Block 0 from the fixed IV, or from a second pass over the dump. */
  method ResolveIv(t: Task, key: seq<byte>, tail: seq<seq<byte>>) returns (b0: Block0)
    requires t.Valid() && t.cipher.Usable(key) && tail == CbcTail(t.cipher, key, t.blocks)
    ensures b0 == ResolveBlock0(t, key)
  {
    match t.fixedIv
    case Some(iv) =>
      var bytes := DecryptBlock0(t, key, iv);
      b0 := Block0(Some(iv), None, bytes, []);
    case None =>
      if t.scanIv && |t.dump| >= t.cipher.blockLen {
        var dec0 := t.cipher.decrypt(key, t.blocks[0]);
        var search := IvSearch.Search(t.dump, dec0, HeadBytes(tail), t.cipher.blockLen, t.oracles);
        var candidates := IvSearch.FindIv(search);
        if candidates == [] {
          b0 := Block0(None, None, Unknown(t.cipher.blockLen), candidates);
        } else {
          var first := candidates[0];
          b0 := Block0(Some(first.iv), Some(first.offset), first.block0, candidates);
        }
      } else {
        b0 := Block0(None, None, Unknown(t.cipher.blockLen), []);
      }
  }

  /** `hunt`: every window is tried, and each try is counted. */
  method Hunt(t: Task, tried: AtomicU64) returns (hits: seq<Hit>)
    requires t.Valid()
    requires tried.Valid()
    modifies tried
    ensures hits == Hits(t)
    ensures tried.Valid() && tried.total == old(tried.total) + t.Total()
  {
    hits := [];
    for o := 0 to t.Total()
      invariant hits == Collect(Verdicts(t), 0, o)
      invariant tried.Valid() && tried.total == old(tried.total) + o
    {
      tried.FetchAddOne();
      var hit := HuntWindow(t, o);
      assert Verdicts(t)(o) == HitAt(t, o);
      if hit.Some? {
        hits := hits + [hit.value];
      }
    }
  }
}
