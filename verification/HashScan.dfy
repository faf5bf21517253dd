/** The search for windows whose digest, or MAC when used as a key, is a given target. */
module HashScan {
  import opened Bytes
  import opened Limited
  import opened Results
  import opened Windows

  /** A foreign hash algorithm. */
  datatype Hasher = Hasher(
    name: string, outputLen: nat, digest: seq<byte> -> seq<byte>, hmac: (seq<byte>, seq<byte>) -> seq<byte>)
  {
    ghost predicate WellFormed() {
      && (forall d :: |digest(d)| == outputLen)
      && (forall k, d :: |hmac(k, d)| == outputLen)
    }
  }

  datatype HashHit = HashHit(algo: string, kind: string, offset: nat, length: nat, bytes: seq<byte>)

  /** A search: the image of a window is compared with the target. */
  datatype Search = Search(
    dump: seq<byte>, algo: string, kind: string, image: seq<byte> -> seq<byte>, target: seq<byte>)
  {
    ghost predicate Valid() {
      forall w :: |image(w)| == |target|
    }
  }

  datatype Error = EmptyTarget | LengthMismatch(got: nat, algo: string, expected: nat)

  // -------------------------------------------------------- specification

  /** The window (offset, length) lies in the dump and its image is the target. */
  predicate Matches(s: Search, offset: nat, length: nat) {
    offset + length <= |s.dump| && s.image(s.dump[offset..offset + length]) == s.target
  }

  function HitAt(s: Search, length: nat, o: nat): Option<HashHit> {
    if Matches(s, o, length) then Some(HashHit(s.algo, s.kind, o, length, s.dump[o..o + length])) else None
  }

  function Verdicts(s: Search, length: nat): nat -> Option<HashHit> {
    (o: nat) => HitAt(s, length, o)
  }

  function LengthHits(s: Search, length: nat): seq<HashHit> {
    Collect(Verdicts(s, length), 0, WindowCount(|s.dump|, length))
  }

  /** Length after length, each at every offset. */
  function HitsFor(s: Search, lengths: seq<nat>): seq<HashHit> {
    if lengths == [] then []
    else HitsFor(s, lengths[..|lengths| - 1]) + LengthHits(s, lengths[|lengths| - 1])
  }

  function WindowsFor(n: nat, lengths: seq<nat>): nat {
    if lengths == [] then 0
    else WindowsFor(n, lengths[..|lengths| - 1]) + WindowCount(n, lengths[|lengths| - 1])
  }

  /** `min..=max` */
  function Range(min: nat, max: nat): seq<nat> {
    if max < min then [] else seq(max - min + 1, i requires 0 <= i => min + i)
  }

  // --------------------------------------------------------- implementation

  /** `hash_into` or `hmac_into`: overwrites the whole buffer. */
  method ImageInto(s: Search, window: seq<byte>, out: array<byte>)
    requires s.Valid() && out.Length == |s.target|
    modifies out
    ensures out[..] == s.image(window)
  {
    var image := s.image(window);
    for i := 0 to out.Length
      invariant forall j :: 0 <= j < i ==> out[j] == image[j]
    {
      out[i] := image[i];
    }
  }

  /** One length at every offset, with one buffer for all of them. */
  method ScanLength(s: Search, length: nat, tried: AtomicU64) returns (hits: seq<HashHit>)
    requires s.Valid() && 0 < length
    requires tried.Valid()
    modifies tried
    ensures hits == LengthHits(s, length)
    ensures tried.Valid() && tried.total == old(tried.total) + WindowCount(|s.dump|, length)
  {
    hits := [];
    var out := new byte[|s.target|](_ => 0);
    for o := 0 to WindowCount(|s.dump|, length)
      invariant hits == Collect(Verdicts(s, length), 0, o)
      invariant tried.Valid() && tried.total == old(tried.total) + o
    {
      tried.FetchAddOne();
      var window := s.dump[o..o + length];
      ImageInto(s, window, out);
      if out[..] == s.target {
        hits := hits + [HashHit(s.algo, s.kind, o, length, window)];
      }
    }
  }

  method ScanLengths(s: Search, lengths: seq<nat>, tried: AtomicU64) returns (hits: seq<HashHit>)
    requires s.Valid() && forall i :: 0 <= i < |lengths| ==> 0 < lengths[i]
    requires tried.Valid()
    modifies tried
    ensures hits == HitsFor(s, lengths)
    ensures tried.Valid() && tried.total == old(tried.total) + WindowsFor(|s.dump|, lengths)
  {
    hits := [];
    for i := 0 to |lengths|
      invariant hits == HitsFor(s, lengths[..i])
      invariant tried.Valid() && tried.total == old(tried.total) + WindowsFor(|s.dump|, lengths[..i])
    {
      var found := ScanLength(s, lengths[i], tried);
      assert lengths[..i + 1][..i] == lengths[..i];
      hits := hits + found;
    }
    assert lengths[..|lengths|] == lengths;
  }

  /** The key sizes tried beyond the range. */
  const HMAC_SIZES: seq<nat> := [16, 24, 32, 64]

  /** Those outside the range, in their order. */
  function Outside(fixed: seq<nat>, min: nat, max: nat): seq<nat> {
    if fixed == [] then []
    else
      var last := fixed[|fixed| - 1];
      Outside(fixed[..|fixed| - 1], min, max) + if min <= last <= max then [] else [last]
  }

  /** The lengths of an HMAC-key search. */
  function HmacLengthList(min: nat, max: nat): seq<nat> {
    Range(min, max) + Outside(HMAC_SIZES, min, max)
  }

  lemma {:induction false} OutsideIsExact(fixed: seq<nat>, min: nat, max: nat)
    ensures forall l :: l in Outside(fixed, min, max) <==> l in fixed && !(min <= l <= max)
  {
    if fixed != [] {
      OutsideIsExact(fixed[..|fixed| - 1], min, max);
      assert fixed == fixed[..|fixed| - 1] + [fixed[|fixed| - 1]];
    }
  }

  lemma {:induction false} OutsideIsDistinct(fixed: seq<nat>, min: nat, max: nat)
    requires Distinct(fixed)
    ensures Distinct(Outside(fixed, min, max))
  {
    if fixed != [] {
      var init := fixed[..|fixed| - 1];
      OutsideIsDistinct(init, min, max);
      OutsideIsExact(init, min, max);
      var before := Outside(init, min, max);
      forall i | 0 <= i < |before|
        ensures before[i] != fixed[|fixed| - 1]
      {
        assert before[i] in init;
      }
    }
  }

  /** The list holds exactly the range and the four sizes, no length twice. */
  lemma HmacLengthsAreExact(min: nat, max: nat)
    ensures forall l :: l in HmacLengthList(min, max) <==> min <= l <= max || l in HMAC_SIZES
    ensures Distinct(HmacLengthList(min, max))
  {
    var range, more := Range(min, max), Outside(HMAC_SIZES, min, max);
    RangeIsExact(min, max);
    OutsideIsExact(HMAC_SIZES, min, max);
    OutsideIsDistinct(HMAC_SIZES, min, max);
    forall i, j | 0 <= i < |range| && 0 <= j < |more|
      ensures range[i] != more[j]
    {
      assert range[i] in range && more[j] in more;
    }
  }

  lemma HmacLengthsArePositive(min: nat, max: nat)
    requires 1 <= min
    ensures forall i :: 0 <= i < |HmacLengthList(min, max)| ==> 0 < HmacLengthList(min, max)[i]
  {
    HmacLengthsAreExact(min, max);
    var lengths := HmacLengthList(min, max);
    forall i | 0 <= i < |lengths|
      ensures 0 < lengths[i]
    {
      assert lengths[i] in lengths;
    }
  }

  /** The range, followed by the usual HMAC key sizes that are not in it. */
  method HmacLengths(min: nat, max: nat) returns (lengths: seq<nat>)
    ensures lengths == HmacLengthList(min, max)
  {
    lengths := Range(min, max);
    for i := 0 to |HMAC_SIZES|
      invariant lengths == Range(min, max) + Outside(HMAC_SIZES[..i], min, max)
    {
      var fixed := HMAC_SIZES[i];
      SizeIsMissing(HMAC_SIZES, i, min, max);
      if fixed !in lengths {
        lengths := lengths + [fixed];
      }
    }
    assert HMAC_SIZES[..|HMAC_SIZES|] == HMAC_SIZES;
  }

  lemma SizeIsMissing(fixed: seq<nat>, i: nat, min: nat, max: nat)
    requires i < |fixed| && Distinct(fixed)
    ensures fixed[i] in Range(min, max) + Outside(fixed[..i], min, max) <==> min <= fixed[i] <= max
    ensures Outside(fixed[..i + 1], min, max)
         == Outside(fixed[..i], min, max) + if min <= fixed[i] <= max then [] else [fixed[i]]
  {
    RangeIsExact(min, max);
    OutsideIsExact(fixed[..i], min, max);
    assert fixed[..i + 1][..i] == fixed[..i];
  }

  ghost predicate Distinct(lengths: seq<nat>) {
    forall i, j :: 0 <= i < j < |lengths| ==> lengths[i] != lengths[j]
  }

  lemma RangeIsExact(min: nat, max: nat)
    ensures forall l :: l in Range(min, max) <==> min <= l <= max
    ensures Distinct(Range(min, max))
  {
    forall l | min <= l <= max
      ensures l in Range(min, max)
    {
      assert Range(min, max)[l - min] == l;
    }
  }

  /** The search one algorithm makes for preimages. */
  function PreimageSearch(h: Hasher, dump: seq<byte>, target: seq<byte>): Search {
    Search(dump, h.name, "preimage", h.digest, target)
  }

  function PreimagePart(h: Hasher, dump: seq<byte>, target: seq<byte>, min: nat, max: nat)
    : Result<Found<HashHit>, Error>
  {
    if |target| != h.outputLen then Err(LengthMismatch(|target|, h.name, h.outputLen))
    else Ok(Found(HitsFor(PreimageSearch(h, dump, target), Range(min, max)), WindowsFor(|dump|, Range(min, max))))
  }

  function PreimageParts(hs: seq<Hasher>, dump: seq<byte>, target: seq<byte>, min: nat, max: nat)
    : (ps: seq<Result<Found<HashHit>, Error>>)
    ensures |ps| == |hs|
  {
    seq(|hs|, i requires 0 <= i < |hs| => PreimagePart(hs[i], dump, target, min, max))
  }

  /** `scan_preimages`: fails at the first algorithm of another output length, unless the limit was reached before. */
  method ScanPreimages(hs: seq<Hasher>, dump: seq<byte>, target: seq<byte>, min: nat, max: nat, maxHits: nat)
    returns (r: Result<Found<HashHit>, Error>)
    requires 1 <= min && forall i :: 0 <= i < |hs| ==> hs[i].WellFormed()
    ensures target == [] ==> r == Err(EmptyTarget)
    ensures target != [] ==> Counted(From(PreimageParts(hs, dump, target, min, max), maxHits, 0), r)
  {
    if target == [] {
      return Err(EmptyTarget);
    }
    var tried := new AtomicU64();
    var hits: seq<HashHit> := [];
    ghost var ps := PreimageParts(hs, dump, target, min, max);
    for i := 0 to |hs|
      invariant fresh(tried) && tried.Valid() && Reached(ps, maxHits, i, hits, tried.total)
    {
      ghost var total := tried.total;
      if |target| != hs[i].outputLen {
        ReachedError(ps, maxHits, i, hits, total);
        return Err(LengthMismatch(|target|, hs[i].name, hs[i].outputLen));
      }
      var found := ScanLengths(PreimageSearch(hs[i], dump, target), Range(min, max), tried);
      ReachedNext(ps, maxHits, i, hits, total, found, tried.total);
      hits := hits + found;
      if LimitReached(maxHits, hits) {
        hits := hits[..maxHits];
        return Ok(Found(hits, tried.value));
      }
    }
    return Ok(Found(hits, tried.value));
  }

  function HmacSearch(h: Hasher, message: seq<byte>, dump: seq<byte>, target: seq<byte>): Search {
    Search(dump, h.name, "hmac_key", key => h.hmac(key, message), target)
  }

  /** `scan_hmac_keys`: takes a limit on the hits, but returns all of them. */
  method ScanHmacKeys(h: Hasher, message: seq<byte>, target: seq<byte>, dump: seq<byte>,
                      min: nat, max: nat, maxHits: nat)
    returns (r: Result<Found<HashHit>, Error>)
    requires 1 <= min && h.WellFormed()
    ensures r ==
      if |target| != h.outputLen then Err(LengthMismatch(|target|, h.name, h.outputLen))
      else
        var lengths := HmacLengthList(min, max);
        Ok(Found(HitsFor(HmacSearch(h, message, dump, target), lengths), WindowsFor(|dump|, lengths) % U64))
  {
    if |target| != h.outputLen {
      return Err(LengthMismatch(|target|, h.name, h.outputLen));
    }
    var tried := new AtomicU64();
    var lengths := HmacLengths(min, max);
    HmacLengthsArePositive(min, max);
    var hits := ScanLengths(HmacSearch(h, message, dump, target), lengths, tried);
    r := Ok(Found(hits, tried.value));
  }

  // -------------------------------------------------------------- theorems

  lemma LengthHitsAreExact(s: Search, length: nat)
    requires 0 < length
    ensures forall h :: h in LengthHits(s, length) <==> HitAt(s, length, h.offset) == Some(h)
    ensures forall i, j :: 0 <= i < j < |LengthHits(s, length)| ==>
      LengthHits(s, length)[i].offset < LengthHits(s, length)[j].offset
  {
    CollectByIndex(Verdicts(s, length), (h: HashHit) => h.offset, WindowCount(|s.dump|, length));
  }

  /**
   * A pair (offset, length) is reported iff its length is searched, it fits in the dump and
   * its image is the target; what is reported is the window itself.
   */
  lemma {:induction false} HitsAreExact(s: Search, lengths: seq<nat>)
    requires forall i :: 0 <= i < |lengths| ==> 0 < lengths[i]
    ensures forall h :: h in HitsFor(s, lengths) <==>
      h.length in lengths && HitAt(s, h.length, h.offset) == Some(h)
    decreases |lengths|
  {
    if lengths != [] {
      var init, last := lengths[..|lengths| - 1], lengths[|lengths| - 1];
      HitsAreExact(s, init);
      LengthHitsAreExact(s, last);
      assert lengths == init + [last];
    }
  }

  /** With distinct lengths no pair is tried, hence reported, twice. */
  lemma {:induction false} NoPairTwice(s: Search, lengths: seq<nat>)
    requires Distinct(lengths) && forall i :: 0 <= i < |lengths| ==> 0 < lengths[i]
    ensures forall i, j :: 0 <= i < j < |HitsFor(s, lengths)| ==>
      HitsFor(s, lengths)[i].offset != HitsFor(s, lengths)[j].offset
      || HitsFor(s, lengths)[i].length != HitsFor(s, lengths)[j].length
    decreases |lengths|
  {
    if lengths != [] {
      var init, last := lengths[..|lengths| - 1], lengths[|lengths| - 1];
      NoPairTwice(s, init);
      HitsAreExact(s, init);
      LengthHitsAreExact(s, last);
      var before, part, hits := HitsFor(s, init), LengthHits(s, last), HitsFor(s, lengths);
      forall i, j | 0 <= i < j < |hits| && j >= |before|
        ensures hits[i].offset != hits[j].offset || hits[i].length != hits[j].length
      {
        assert hits[j] == part[j - |before|] && part[j - |before|] in part;
        if i < |before| {
          assert hits[i] in before && hits[i].length in init;
        } else {
          assert hits[i] == part[i - |before|];
        }
      }
    }
  }

  /** x is a window of the dump whose digest is the target. */
  ghost predicate IsPreimage(h: Hasher, dump: seq<byte>, target: seq<byte>, x: HashHit) {
    && x.offset + x.length <= |dump|
    && h.digest(dump[x.offset..x.offset + x.length]) == target
    && x == HashHit(h.name, "preimage", x.offset, x.length, dump[x.offset..x.offset + x.length])
  }

  /** x is a window of the dump under which, as the key, the message has the target MAC. */
  ghost predicate IsHmacKey(h: Hasher, message: seq<byte>, dump: seq<byte>, target: seq<byte>, x: HashHit) {
    && x.offset + x.length <= |dump|
    && h.hmac(dump[x.offset..x.offset + x.length], message) == target
    && x == HashHit(h.name, "hmac_key", x.offset, x.length, dump[x.offset..x.offset + x.length])
  }

  /** x is a preimage for algorithm i, of a length in the range. */
  ghost predicate Preimage(hs: seq<Hasher>, dump: seq<byte>, target: seq<byte>, min: nat, max: nat, i: nat, x: HashHit)
  {
    i < |hs| && min <= x.length <= max && IsPreimage(hs[i], dump, target, x)
  }

  lemma PreimagePartIsExact(hs: seq<Hasher>, dump: seq<byte>, target: seq<byte>, min: nat, max: nat, i: nat, x: HashHit)
    requires 1 <= min && i < |hs| && |target| == hs[i].outputLen
    ensures x in PreimageParts(hs, dump, target, min, max)[i].value.hits <==> Preimage(hs, dump, target, min, max, i, x)
  {
    RangeIsExact(min, max);
    assert forall k :: 0 <= k < |Range(min, max)| ==> 0 < Range(min, max)[k];
    HitsAreExact(PreimageSearch(hs[i], dump, target), Range(min, max));
  }

  /** The hits of the first j algorithms, if their output lengths all fit. */
  lemma FirstPreimages(hs: seq<Hasher>, dump: seq<byte>, target: seq<byte>, min: nat, max: nat, j: nat, x: HashHit)
    requires 1 <= min && j <= |hs| && Unlimited(PreimageParts(hs, dump, target, min, max), j).Ok?
    ensures x in Unlimited(PreimageParts(hs, dump, target, min, max), j).value.hits <==>
      exists i :: 0 <= i < j && Preimage(hs, dump, target, min, max, i, x)
  {
    var ps := PreimageParts(hs, dump, target, min, max);
    if x in Unlimited(ps, j).value.hits {
      var i := HitHasOrigin(ps, j, x);
      PreimagePartIsExact(hs, dump, target, min, max, i, x);
    }
    if i :| 0 <= i < j && Preimage(hs, dump, target, min, max, i, x) {
      PartIsIncluded(ps, j, i);
      PreimagePartIsExact(hs, dump, target, min, max, i, x);
    }
  }

  /**
   * A preimage scan that succeeds, under any limit, has searched the first j algorithms: the
   * matching windows of these, in order and cut at the limit, are what it reports, and the
   * windows tried are j times those of the range. Whatever matches is reported, with any
   * algorithm, unless the limit is used up; without a limit j is all of them.
   */
  lemma PreimagesAreExact(hs: seq<Hasher>, dump: seq<byte>, target: seq<byte>, min: nat, max: nat, maxHits: nat)
    returns (j: nat)
    requires 1 <= min && From(PreimageParts(hs, dump, target, min, max), maxHits, 0).Ok?
    ensures StopsAfter(PreimageParts(hs, dump, target, min, max), maxHits, 0, j)
    ensures maxHits == 0 ==> j == |hs|
    ensures var all, r := Unlimited(PreimageParts(hs, dump, target, min, max), j).value.hits,
                          From(PreimageParts(hs, dump, target, min, max), maxHits, 0).value;
      && r.hits == CutAt(maxHits, all)
      && r.tried == j * WindowsFor(|dump|, Range(min, max))
      && (forall x :: x in all <==> exists i :: 0 <= i < j && Preimage(hs, dump, target, min, max, i, x))
      && (forall x :: x in r.hits ==> x in all)
      && (forall i, x :: Preimage(hs, dump, target, min, max, i, x) ==> x in r.hits || 0 < maxHits == |r.hits|)
  {
    var ps := PreimageParts(hs, dump, target, min, max);
    j := SearchStops(ps, maxHits, 0);
    TriedEach(ps, WindowsFor(|dump|, Range(min, max)), j);
    forall x
      ensures x in Unlimited(ps, j).value.hits <==>
        exists i :: 0 <= i < j && Preimage(hs, dump, target, min, max, i, x)
    {
      FirstPreimages(hs, dump, target, min, max, j, x);
    }
    var all := Unlimited(ps, j).value.hits;
    if maxHits == 0 || |all| < maxHits {
      assert all[..|all|] == all;
    }
  }

  /**
   * An HMAC-key scan reports a window iff its length is in the range or one of the four sizes
   * and the message has the target MAC under it, and no (offset, length) pair twice.
   */
  lemma HmacKeysAreExact(h: Hasher, message: seq<byte>, target: seq<byte>, dump: seq<byte>, min: nat, max: nat)
    requires 1 <= min
    ensures var hits := HitsFor(HmacSearch(h, message, dump, target), HmacLengthList(min, max));
      && (forall x :: x in hits <==>
            && (min <= x.length <= max || x.length == 16 || x.length == 24 || x.length == 32 || x.length == 64)
            && IsHmacKey(h, message, dump, target, x))
      && (forall i, j :: 0 <= i < j < |hits| ==> hits[i].offset != hits[j].offset || hits[i].length != hits[j].length)
  {
    var s, lengths := HmacSearch(h, message, dump, target), HmacLengthList(min, max);
    HmacLengthsAreExact(min, max);
    HmacLengthsArePositive(min, max);
    HitsAreExact(s, lengths);
    NoPairTwice(s, lengths);
    forall x: HashHit
      ensures HitAt(s, x.length, x.offset) == Some(x) <==> IsHmacKey(h, message, dump, target, x)
    {
      HmacHitIff(h, message, dump, target, x);
    }
  }

  lemma HmacHitIff(h: Hasher, message: seq<byte>, dump: seq<byte>, target: seq<byte>, x: HashHit)
    ensures HitAt(HmacSearch(h, message, dump, target), x.length, x.offset) == Some(x)
      <==> IsHmacKey(h, message, dump, target, x)
  {}

  // ------------------------------------------------------ order and failure

  /** g comes before h: an earlier length in the list, or the same one at a smaller offset. */
  ghost predicate Precedes(lengths: seq<nat>, g: HashHit, h: HashHit) {
    exists p, q :: 0 <= p <= q < |lengths| && g.length == lengths[p] && h.length == lengths[q]
      && (p == q ==> g.offset < h.offset)
  }

  /** Hits come length by length in the order of the list, each length by increasing offset. */
  lemma {:induction false} HitsAreOrdered(s: Search, lengths: seq<nat>)
    requires forall i :: 0 <= i < |lengths| ==> 0 < lengths[i]
    ensures forall i, j :: 0 <= i < j < |HitsFor(s, lengths)| ==>
      Precedes(lengths, HitsFor(s, lengths)[i], HitsFor(s, lengths)[j])
    decreases |lengths|
  {
    if lengths != [] {
      var n := |lengths| - 1;
      var init, last := lengths[..n], lengths[n];
      HitsAreOrdered(s, init);
      HitsAreExact(s, init);
      LengthHitsAreExact(s, last);
      var before, part, hits := HitsFor(s, init), LengthHits(s, last), HitsFor(s, lengths);
      assert lengths == init + [last];
      forall i, j | 0 <= i < j < |hits|
        ensures Precedes(lengths, hits[i], hits[j])
      {
        if j < |before| {
          MoreLengths(init, last, before[i], before[j]);
        } else if i < |before| {
          assert before[i] in before && part[j - |before|] in part;
          LaterLength(init, last, before[i], part[j - |before|]);
        } else {
          assert part[i - |before|] in part && part[j - |before|] in part;
          assert lengths[n] == last;
        }
      }
    }
  }

  lemma MoreLengths(init: seq<nat>, last: nat, g: HashHit, h: HashHit)
    requires Precedes(init, g, h)
    ensures Precedes(init + [last], g, h)
  {
    var p, q :| 0 <= p <= q < |init| && g.length == init[p] && h.length == init[q] && (p == q ==> g.offset < h.offset);
    assert (init + [last])[p] == init[p] && (init + [last])[q] == init[q];
  }

  lemma LaterLength(init: seq<nat>, last: nat, g: HashHit, h: HashHit)
    requires g.length in init && h.length == last
    ensures Precedes(init + [last], g, h)
  {
    var p :| 0 <= p < |init| && init[p] == g.length;
    assert (init + [last])[p] == init[p] && (init + [last])[|init|] == last;
  }

  /**
   * A preimage scan that fails has got to the first algorithm whose output length differs from
   * the target's, and names it; without a limit it succeeds only if there is none.
   */
  lemma PreimageScanFails(hs: seq<Hasher>, dump: seq<byte>, target: seq<byte>, min: nat, max: nat, maxHits: nat)
    returns (j: nat)
    ensures var r := From(PreimageParts(hs, dump, target, min, max), maxHits, 0);
      && (r.Err? ==>
            && j < |hs| && hs[j].outputLen != |target|
            && (forall i :: 0 <= i < j ==> hs[i].outputLen == |target|)
            && r == Err(LengthMismatch(|target|, hs[j].name, hs[j].outputLen)))
      && ((forall i :: 0 <= i < |hs| ==> hs[i].outputLen == |target|) ==> r.Ok?)
      && (maxHits == 0 && r.Ok? ==> forall i :: 0 <= i < |hs| ==> hs[i].outputLen == |target|)
  {
    var ps := PreimageParts(hs, dump, target, min, max);
    j := 0;
    if From(ps, maxHits, 0).Err? {
      j := SearchFails(ps, maxHits, 0);
      forall i | 0 <= i < j
        ensures hs[i].outputLen == |target|
      {
        PartIsIncluded(ps, j, i);
        assert ps[i] == PreimagePart(hs[i], dump, target, min, max);
      }
    } else if maxHits == 0 {
      NoLimitRunsAll(ps, 0);
      forall i | 0 <= i < |hs|
        ensures hs[i].outputLen == |target|
      {
        PartIsIncluded(ps, |ps|, i);
        assert ps[i] == PreimagePart(hs[i], dump, target, min, max);
      }
    }
  }

  // -------------------------------------------- the limit of an HMAC-key search

  lemma {:induction false} AllMatch(s: Search, length: nat, n: nat)
    requires forall o: nat :: o < n ==> HitAt(s, length, o).Some?
    ensures |Collect(Verdicts(s, length), 0, n)| == n
  {
    if n != 0 {
      AllMatch(s, length, n - 1);
      assert Verdicts(s, length)(n - 1) == HitAt(s, length, n - 1);
    }
  }

  lemma {:induction false} MoreLengthsMoreHits(s: Search, lengths: seq<nat>, k: nat)
    requires k <= |lengths|
    ensures |HitsFor(s, lengths[..k])| <= |HitsFor(s, lengths)|
    decreases |lengths|
  {
    if k != |lengths| {
      var init := lengths[..|lengths| - 1];
      MoreLengthsMoreHits(s, init, k);
      assert init[..k] == lengths[..k];
    } else {
      assert lengths[..k] == lengths;
    }
  }

  /** Any algorithm whose MAC is always `mac`, and a dump of n bytes. */
  function ConstantHasher(mac: seq<byte>): Hasher {
    Hasher("constant", |mac|, _ => mac, (_, _) => mac)
  }

  /** However large the limit, an HMAC-key search can return more hits. */
  lemma HmacLimitIsIgnored(maxHits: nat, message: seq<byte>, mac: seq<byte>) returns (dump: seq<byte>)
    ensures ConstantHasher(mac).WellFormed() && |mac| == ConstantHasher(mac).outputLen
    ensures |HitsFor(HmacSearch(ConstantHasher(mac), message, dump, mac), HmacLengthList(1, 1))| > maxHits
  {
    dump := seq(maxHits + 1, _ => 0);
    var s, lengths := HmacSearch(ConstantHasher(mac), message, dump, mac), HmacLengthList(1, 1);
    forall o: nat | o < maxHits + 1
      ensures HitAt(s, 1, o).Some?
    {
      assert s.image(dump[o..o + 1]) == mac;
    }
    AllMatch(s, 1, maxHits + 1);
    assert lengths[..1] == [1] && [1][..0] == [] && HitsFor(s, [1]) == [] + LengthHits(s, 1);
    MoreLengthsMoreHits(s, lengths, 1);
  }
}
