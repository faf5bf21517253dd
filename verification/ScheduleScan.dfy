/** The scan for AES and SM4 key schedules over a whole dump. */
module ScheduleScan {
  import opened Bytes
  import opened Results
  import opened Windows
  import opened Words
  import KeySchedule
  import Sm4Schedule

  datatype Hit = Hit(algo: string, offset: nat, key: seq<byte>, wordsValidated: nat)

  function Algo(nk: nat): string
    requires KeySchedule.IsKeySize(nk)
  {
    match nk
    case 4 => "aes-128"
    case 6 => "aes-192"
    case _ => "aes-256"
  }

  // -------------------------------------------------------- specification

  function AesHitAt(box: KeySchedule.Box, dump: seq<byte>, nk: nat, o: nat): Option<Hit>
    requires KeySchedule.IsKeySize(nk)
  {
    if KeySchedule.IsHead(box, dump, o, nk) then
      Some(Hit(Algo(nk), o, dump[o..o + 4 * nk], 4 + nk))
    else None
  }

  function AesVerdicts(box: KeySchedule.Box, dump: seq<byte>, nk: nat): nat -> Option<Hit>
    requires KeySchedule.IsKeySize(nk)
  {
    (o: nat) => AesHitAt(box, dump, nk, o)
  }

  function AesTotal(dump: seq<byte>, nk: nat): nat {
    WindowCount(|dump|, (nk + 4) * 4)
  }

  function AesHits(box: KeySchedule.Box, dump: seq<byte>, nk: nat): seq<Hit>
    requires KeySchedule.IsKeySize(nk)
  {
    Collect(AesVerdicts(box, dump, nk), 0, AesTotal(dump, nk))
  }

  function Sm4HitAt(p: Sm4Schedule.Params, dump: seq<byte>, o: nat): Option<Hit>
    requires p.Valid()
  {
    if Sm4Schedule.IsHead(p, dump, o) then Some(Hit("sm4", o, dump[o..o + 16], 1)) else None
  }

  function Sm4Verdicts(p: Sm4Schedule.Params, dump: seq<byte>): nat -> Option<Hit>
    requires p.Valid()
  {
    (o: nat) => Sm4HitAt(p, dump, o)
  }

  function Sm4Total(dump: seq<byte>): nat {
    WindowCount(|dump|, 20)
  }

  function Sm4Hits(p: Sm4Schedule.Params, dump: seq<byte>): seq<Hit>
    requires p.Valid()
  {
    Collect(Sm4Verdicts(p, dump), 0, Sm4Total(dump))
  }

  // --------------------------------------------------------- implementation

  method AesWindow(box: KeySchedule.Box, dump: seq<byte>, nk: nat, o: nat) returns (hit: Option<Hit>)
    requires KeySchedule.IsKeySize(nk) && o < AesTotal(dump, nk)
    ensures hit == AesHitAt(box, dump, nk, o)
  {
    var validated := KeySchedule.ScheduleHeadValid(box, dump, o, nk);
    if validated.None? {
      return None;
    }
    return Some(Hit(Algo(nk), o, dump[o..o + 4 * nk], validated.value + nk));
  }

  method Sm4Window(p: Sm4Schedule.Params, dump: seq<byte>, o: nat) returns (hit: Option<Hit>)
    requires p.Valid() && o < Sm4Total(dump)
    ensures hit == Sm4HitAt(p, dump, o)
  {
    var validated := Sm4Schedule.ScheduleHeadValid(p, dump, o);
    if validated.None? {
      return None;
    }
    return Some(Hit("sm4", o, dump[o..o + 16], validated.value));
  }

  method ScanAesSize(box: KeySchedule.Box, dump: seq<byte>, nk: nat, tried: AtomicU64) returns (hits: seq<Hit>)
    requires KeySchedule.IsKeySize(nk)
    requires tried.Valid()
    modifies tried
    ensures hits == AesHits(box, dump, nk)
    ensures tried.Valid() && tried.total == old(tried.total) + AesTotal(dump, nk)
  {
    hits := [];
    for o := 0 to AesTotal(dump, nk)
      invariant hits == Collect(AesVerdicts(box, dump, nk), 0, o)
      invariant tried.Valid() && tried.total == old(tried.total) + o
    {
      tried.FetchAddOne();
      var hit := AesWindow(box, dump, nk, o);
      if hit.Some? {
        hits := hits + [hit.value];
      }
    }
  }

  method ScanSm4(p: Sm4Schedule.Params, dump: seq<byte>, tried: AtomicU64) returns (hits: seq<Hit>)
    requires p.Valid()
    requires tried.Valid()
    modifies tried
    ensures hits == Sm4Hits(p, dump)
    ensures tried.Valid() && tried.total == old(tried.total) + Sm4Total(dump)
  {
    hits := [];
    for o := 0 to Sm4Total(dump)
      invariant hits == Collect(Sm4Verdicts(p, dump), 0, o)
      invariant tried.Valid() && tried.total == old(tried.total) + o
    {
      tried.FetchAddOne();
      var hit := Sm4Window(p, dump, o);
      if hit.Some? {
        hits := hits + [hit.value];
      }
    }
  }

  ghost predicate AreSizes(sizes: seq<nat>) {
    forall i :: 0 <= i < |sizes| ==> KeySchedule.IsKeySize(sizes[i])
  }

  /** The hits for several sizes, one size after the other. */
  function AesHitsFor(box: KeySchedule.Box, dump: seq<byte>, sizes: seq<nat>): seq<Hit>
    requires AreSizes(sizes)
  {
    if sizes == [] then []
    else AesHitsFor(box, dump, sizes[..|sizes| - 1]) + AesHits(box, dump, sizes[|sizes| - 1])
  }

  function AesTotalFor(dump: seq<byte>, sizes: seq<nat>): nat {
    if sizes == [] then 0 else AesTotalFor(dump, sizes[..|sizes| - 1]) + AesTotal(dump, sizes[|sizes| - 1])
  }

  /** The words of the three AES key sizes. */
  const AES_SIZES: seq<nat> := [4, 6, 8]

  lemma SizesAreSizes()
    ensures AreSizes(AES_SIZES)
  {}

  function AllHits(box: KeySchedule.Box, p: Sm4Schedule.Params, dump: seq<byte>): seq<Hit>
    requires p.Valid()
  {
    SizesAreSizes();
    AesHitsFor(box, dump, AES_SIZES) + Sm4Hits(p, dump)
  }

  method ScanAesSizes(box: KeySchedule.Box, dump: seq<byte>, sizes: seq<nat>, tried: AtomicU64)
    returns (hits: seq<Hit>)
    requires AreSizes(sizes)
    requires tried.Valid()
    modifies tried
    ensures hits == AesHitsFor(box, dump, sizes)
    ensures tried.Valid() && tried.total == old(tried.total) + AesTotalFor(dump, sizes)
  {
    hits := [];
    for i := 0 to |sizes|
      invariant tried.Valid() && tried.total == old(tried.total) + AesTotalFor(dump, sizes[..i])
      invariant hits == AesHitsFor(box, dump, sizes[..i])
    {
      var found := ScanAesSize(box, dump, sizes[i], tried);
      assert sizes[..i + 1][..i] == sizes[..i];
      hits := hits + found;
    }
    assert sizes[..|sizes|] == sizes;
  }

  method ScanSchedules(box: KeySchedule.Box, p: Sm4Schedule.Params, dump: seq<byte>, sizes: seq<nat>, tried: AtomicU64)
    returns (hits: seq<Hit>)
    requires p.Valid() && AreSizes(sizes)
    requires tried.Valid()
    modifies tried
    ensures hits == AesHitsFor(box, dump, sizes) + Sm4Hits(p, dump)
    ensures tried.Valid() && tried.total == old(tried.total) + AesTotalFor(dump, sizes) + Sm4Total(dump)
  {
    hits := ScanAesSizes(box, dump, sizes, tried);
    var sm4 := ScanSm4(p, dump, tried);
    hits := hits + sm4;
  }

  /** `scan_key_schedules`: the three AES sizes, then SM4, into one list and one counter. */
  method ScanKeySchedules(box: KeySchedule.Box, p: Sm4Schedule.Params, dump: seq<byte>)
    returns (hits: seq<Hit>, tried: nat)
    requires p.Valid()
    ensures hits == AllHits(box, p, dump)
    ensures tried == (AesTotalFor(dump, AES_SIZES) + Sm4Total(dump)) % U64
  {
    SizesAreSizes();
    var counter := new AtomicU64();
    hits := ScanSchedules(box, p, dump, AES_SIZES, counter);
    tried := counter.value;
  }

  // -------------------------------------------------------------- theorems

  /** AES hits are exactly the schedule heads, each once, in offset order, with the key found there. */
  lemma AesHitsAreExact(box: KeySchedule.Box, dump: seq<byte>, nk: nat)
    requires KeySchedule.IsKeySize(nk)
    ensures forall h :: h in AesHits(box, dump, nk) <==>
      && KeySchedule.IsHead(box, dump, h.offset, nk)
      && h == Hit(Algo(nk), h.offset, dump[h.offset..h.offset + 4 * nk], 4 + nk)
    ensures forall i, j :: 0 <= i < j < |AesHits(box, dump, nk)| ==>
      AesHits(box, dump, nk)[i].offset < AesHits(box, dump, nk)[j].offset
  {
    CollectByIndex(AesVerdicts(box, dump, nk), (h: Hit) => h.offset, AesTotal(dump, nk));
  }

  /** There is a hit at an offset iff there is a head at it. */
  lemma HeadsAreHits(box: KeySchedule.Box, dump: seq<byte>, nk: nat, o: nat)
    requires KeySchedule.IsKeySize(nk)
    ensures (exists h :: h in AesHits(box, dump, nk) && h.offset == o) <==> KeySchedule.IsHead(box, dump, o, nk)
  {
    AesHitsAreExact(box, dump, nk);
    if KeySchedule.IsHead(box, dump, o, nk) {
      var h := Hit(Algo(nk), o, dump[o..o + 4 * nk], 4 + nk);
      assert h in AesHits(box, dump, nk);
    }
  }

  /** SM4 hits are exactly the offsets where a key is followed by its first round key. */
  lemma Sm4HitsAreExact(p: Sm4Schedule.Params, dump: seq<byte>)
    requires p.Valid()
    ensures forall h :: h in Sm4Hits(p, dump) <==>
      Sm4Schedule.IsHead(p, dump, h.offset) && h == Hit("sm4", h.offset, dump[h.offset..h.offset + 16], 1)
    ensures forall i, j :: 0 <= i < j < |Sm4Hits(p, dump)| ==> Sm4Hits(p, dump)[i].offset < Sm4Hits(p, dump)[j].offset
  {
    CollectByIndex(Sm4Verdicts(p, dump), (h: Hit) => h.offset, Sm4Total(dump));
  }

  /** A full schedule yields one hit of its size at its head, and none at a later word inside it. */
  lemma ScheduleHitsOnce(box: KeySchedule.Box, dump: seq<byte>, offset: nat, key: seq<Word>, from: nat)
    requires KeySchedule.IsKeySize(|key|)
    requires KeySchedule.HoldsSchedule(box, dump, offset, key, KeySchedule.ScheduleWords(|key|))
    requires from + |key| + 4 <= KeySchedule.ScheduleWords(|key|)
    requires from % |key| == 0 || KeySchedule.NoFixedWord(box)
    ensures (exists h :: h in AesHits(box, dump, |key|) && h.offset == offset + 4 * from) <==> from == 0
  {
    KeySchedule.OnlyTheHeadHits(box, dump, offset, key, from);
    HeadsAreHits(box, dump, |key|, offset + 4 * from);
  }

  lemma {:induction false} SizeIndex(box: KeySchedule.Box, dump: seq<byte>, sizes: seq<nat>, i: nat, h: Hit)
    requires AreSizes(sizes) && i < |sizes| && h in AesHits(box, dump, sizes[i])
    ensures h in AesHitsFor(box, dump, sizes)
    decreases |sizes|
  {
    if i != |sizes| - 1 {
      SizeIndex(box, dump, sizes[..|sizes| - 1], i, h);
    }
  }

  /** A dump that holds a full AES schedule yields a hit at its head, carrying the key found there. */
  lemma PlantedScheduleIsReported(box: KeySchedule.Box, p: Sm4Schedule.Params, dump: seq<byte>,
                                  offset: nat, key: seq<Word>)
    requires p.Valid() && KeySchedule.IsKeySize(|key|)
    requires KeySchedule.HoldsSchedule(box, dump, offset, key, KeySchedule.ScheduleWords(|key|))
    ensures Hit(Algo(|key|), offset, dump[offset..offset + 4 * |key|], 4 + |key|) in AllHits(box, p, dump)
    ensures KeySchedule.WordsAt(dump, offset, |key|) == key
  {
    KeySchedule.ScheduleIsDetected(box, dump, offset, key);
    HeadIsReported(box, p, dump, offset, |key|);
  }

  lemma HeadIsReported(box: KeySchedule.Box, p: Sm4Schedule.Params, dump: seq<byte>, offset: nat, nk: nat)
    requires p.Valid() && KeySchedule.IsKeySize(nk) && KeySchedule.IsHead(box, dump, offset, nk)
    ensures Hit(Algo(nk), offset, dump[offset..offset + 4 * nk], 4 + nk) in AllHits(box, p, dump)
  {
    AllHitsAreExact(box, p, dump, Hit(Algo(nk), offset, dump[offset..offset + 4 * nk], 4 + nk));
  }

  // ------------------------------------------------------- the whole answer

  /** h is the AES hit of this size at its offset. */
  ghost predicate IsAesHit(box: KeySchedule.Box, dump: seq<byte>, nk: nat, h: Hit)
    requires KeySchedule.IsKeySize(nk)
  {
    && KeySchedule.IsHead(box, dump, h.offset, nk)
    && h == Hit(Algo(nk), h.offset, dump[h.offset..h.offset + 4 * nk], 4 + nk)
  }

  /** h is the SM4 hit at its offset. */
  ghost predicate IsSm4Hit(p: Sm4Schedule.Params, dump: seq<byte>, h: Hit)
    requires p.Valid()
  {
    Sm4Schedule.IsHead(p, dump, h.offset) && h == Hit("sm4", h.offset, dump[h.offset..h.offset + 16], 1)
  }

  lemma {:induction false} SizeOf(box: KeySchedule.Box, dump: seq<byte>, sizes: seq<nat>, h: Hit) returns (i: nat)
    requires AreSizes(sizes) && h in AesHitsFor(box, dump, sizes)
    ensures i < |sizes| && h in AesHits(box, dump, sizes[i])
    decreases |sizes|
  {
    var n := |sizes| - 1;
    if h in AesHits(box, dump, sizes[n]) {
      i := n;
    } else {
      i := SizeOf(box, dump, sizes[..n], h);
    }
  }

  lemma SizesAreExact(box: KeySchedule.Box, dump: seq<byte>, sizes: seq<nat>, h: Hit)
    requires AreSizes(sizes)
    ensures h in AesHitsFor(box, dump, sizes) <==>
      exists i :: 0 <= i < |sizes| && IsAesHit(box, dump, sizes[i], h)
  {
    if h in AesHitsFor(box, dump, sizes) {
      var i := SizeOf(box, dump, sizes, h);
      AesHitsAreExact(box, dump, sizes[i]);
    }
    if i :| 0 <= i < |sizes| && IsAesHit(box, dump, sizes[i], h) {
      AesHitsAreExact(box, dump, sizes[i]);
      SizeIndex(box, dump, sizes, i, h);
    }
  }

  /** Exactly the heads of AES schedules of the three sizes, and the SM4 keys before their first round key. */
  lemma AllHitsAreExact(box: KeySchedule.Box, p: Sm4Schedule.Params, dump: seq<byte>, h: Hit)
    requires p.Valid()
    ensures h in AllHits(box, p, dump) <==>
      || IsAesHit(box, dump, 4, h) || IsAesHit(box, dump, 6, h) || IsAesHit(box, dump, 8, h)
      || IsSm4Hit(p, dump, h)
  {
    SizesAreSizes();
    SizesAreExact(box, dump, AES_SIZES, h);
    Sm4HitsAreExact(p, dump);
    assert AES_SIZES[0] == 4 && AES_SIZES[1] == 6 && AES_SIZES[2] == 8;
  }

  /** The order of the algorithms in the answer. */
  function Rank(algo: string): nat {
    if algo == "aes-128" then 0 else if algo == "aes-192" then 1 else if algo == "aes-256" then 2 else 3
  }

  ghost predicate Follows(g: Hit, h: Hit) {
    Rank(g.algo) < Rank(h.algo) || (g.algo == h.algo && g.offset < h.offset)
  }

  ghost predicate InOrder(hits: seq<Hit>) {
    forall i, j :: 0 <= i < j < |hits| ==> Follows(hits[i], hits[j])
  }

  lemma AlgoRank(nk: nat)
    requires KeySchedule.IsKeySize(nk)
    ensures Rank(Algo(nk)) == nk / 2 - 2 && Rank("sm4") == 3
  {
    assert "aes-128"[4] == '1' && "aes-192"[5] == '9' && "aes-256"[4] == '2' && "aes-128"[5] == '2';
    assert |"sm4"| == 3 && |"aes-128"| == |"aes-192"| == |"aes-256"| == 7;
  }

  lemma AppendInOrder(a: seq<Hit>, b: seq<Hit>)
    requires InOrder(a) && InOrder(b)
    requires forall g, h :: g in a && h in b ==> Rank(g.algo) < Rank(h.algo)
    ensures InOrder(a + b)
  {
    var all := a + b;
    forall i, j | 0 <= i < j < |all|
      ensures Follows(all[i], all[j])
    {
      if i < |a| <= j {
        assert all[i] in a && all[j] in b;
      }
    }
  }

  lemma {:induction false} SizesInOrder(box: KeySchedule.Box, dump: seq<byte>, sizes: seq<nat>)
    requires AreSizes(sizes) && forall i, j :: 0 <= i < j < |sizes| ==> sizes[i] < sizes[j]
    ensures InOrder(AesHitsFor(box, dump, sizes))
    ensures forall h :: h in AesHitsFor(box, dump, sizes) ==> Rank(h.algo) < 3
    decreases |sizes|
  {
    if sizes != [] {
      var n := |sizes| - 1;
      SizesInOrder(box, dump, sizes[..n]);
      AesInOrder(box, dump, sizes[n]);
      forall g | g in AesHitsFor(box, dump, sizes[..n])
        ensures Rank(g.algo) < sizes[n] / 2 - 2
      {
        SizesAreExact(box, dump, sizes[..n], g);
        var i :| 0 <= i < n && IsAesHit(box, dump, sizes[i], g);
        AlgoRank(sizes[i]);
      }
      AppendInOrder(AesHitsFor(box, dump, sizes[..n]), AesHits(box, dump, sizes[n]));
    }
  }

  lemma AesInOrder(box: KeySchedule.Box, dump: seq<byte>, nk: nat)
    requires KeySchedule.IsKeySize(nk)
    ensures InOrder(AesHits(box, dump, nk))
    ensures forall h :: h in AesHits(box, dump, nk) ==> Rank(h.algo) == nk / 2 - 2 < 3
  {
    AesHitsAreExact(box, dump, nk);
    AlgoRank(nk);
    var hits := AesHits(box, dump, nk);
    forall i, j | 0 <= i < j < |hits|
      ensures Follows(hits[i], hits[j])
    {
      assert hits[i] in hits && hits[j] in hits;
    }
  }

  /** AES-128, AES-192 and AES-256 before SM4, each by increasing offset: no hit comes twice. */
  lemma AllHitsInOrder(box: KeySchedule.Box, p: Sm4Schedule.Params, dump: seq<byte>)
    requires p.Valid()
    ensures InOrder(AllHits(box, p, dump))
  {
    SizesAreSizes();
    SizesInOrder(box, dump, AES_SIZES);
    Sm4InOrder(p, dump);
    AppendInOrder(AesHitsFor(box, dump, AES_SIZES), Sm4Hits(p, dump));
  }

  lemma Sm4InOrder(p: Sm4Schedule.Params, dump: seq<byte>)
    requires p.Valid()
    ensures InOrder(Sm4Hits(p, dump)) && forall h :: h in Sm4Hits(p, dump) ==> Rank(h.algo) == 3
  {
    Sm4HitsAreExact(p, dump);
    AlgoRank(4);
    var hits := Sm4Hits(p, dump);
    forall i, j | 0 <= i < j < |hits|
      ensures Follows(hits[i], hits[j])
    {
      assert hits[i] in hits && hits[j] in hits;
    }
  }
}
