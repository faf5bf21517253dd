/** The second pass over the dump that looks for a CBC initialisation vector. */
module IvSearch {
  import opened Bytes
  import opened Oracles
  import opened Results
  import opened Windows
  import Utf8

  const CANDIDATES_MAX: nat := 8

  datatype IvCandidate = IvCandidate(
    offset: nat, iv: seq<byte>, block0: seq<byte>, matchedBy: string,
    confidence: Confidence, plausibility: nat)

  /** `dec0` is block 0 decrypted but not yet XORed, `tail` the verified blocks after it. */
  datatype Search = Search(dump: seq<byte>, dec0: seq<byte>, tail: seq<byte>, block: nat, oracles: seq<Oracle>) {
    ghost predicate Valid() {
      0 < block && |dec0| == block
    }

    function Total(): nat {
      WindowCount(|dump|, block)
    }

    function Window(o: nat): seq<byte>
      requires o < Total()
    {
      dump[o..o + block]
    }
  }

  // -------------------------------------------------------- specification

  /** What the window at `o` is worth as an IV. */
  function CandidateAt(s: Search, o: nat): Option<IvCandidate> {
    if o >= s.Total() then None
    else
      var iv := s.Window(o);
      var b0 := Xor(s.dec0, iv);
      match BestMatch(s.oracles, b0 + s.tail)
      case None => None
      case Some(m) => Some(IvCandidate(o, iv, b0, m.name, m.confidence, Utf8.Plausibility(b0)))
  }

  function Candidates(s: Search): nat -> Option<IvCandidate> {
    (o: nat) => CandidateAt(s, o)
  }

  function Accepted(s: Search): seq<IvCandidate> {
    Collect(Candidates(s), 0, s.Total())
  }

  /** Strictly better on (confidence, plausibility) alone. */
  predicate Outranks(a: IvCandidate, b: IvCandidate) {
    || a.confidence.Rank() > b.confidence.Rank()
    || (a.confidence.Rank() == b.confidence.Rank() && a.plausibility > b.plausibility)
  }

  /** Confidence descending, plausibility descending, offset ascending. */
  predicate Before(a: IvCandidate, b: IvCandidate) {
    || Outranks(a, b)
    || (!Outranks(b, a) && a.offset < b.offset)
  }

  ghost predicate Ranked(cs: seq<IvCandidate>) {
    forall i, j :: 0 <= i < j < |cs| ==> Before(cs[i], cs[j])
  }

  ghost predicate DistinctOffsets(cs: seq<IvCandidate>) {
    forall i, j :: 0 <= i < j < |cs| ==> cs[i].offset != cs[j].offset
  }

  /** `best` holds the k best of `all`, or all of them when there are fewer, best first. */
  ghost predicate IsTop(best: seq<IvCandidate>, all: seq<IvCandidate>, k: nat) {
    && |best| == Min(k, |all|)
    && Ranked(best)
    && (forall i :: 0 <= i < |best| ==> best[i] in all)
    && (forall c, i :: c in all && c !in best && 0 <= i < |best| ==> Before(best[i], c))
  }

  // ------------------------------------------------- the standard library's sort

  function Insert(c: IvCandidate, cs: seq<IvCandidate>): seq<IvCandidate> {
    if cs == [] then [c]
    else if Before(cs[0], c) then [cs[0]] + Insert(c, cs[1..])
    else [c] + cs
  }

  /** `sort_by` with the three-level comparison. */
  function Sort(cs: seq<IvCandidate>): seq<IvCandidate> {
    if cs == [] then [] else Insert(cs[0], Sort(cs[1..]))
  }

  lemma {:induction false} InsertKeepsRanked(c: IvCandidate, cs: seq<IvCandidate>)
    requires Ranked(cs) && forall i :: 0 <= i < |cs| ==> cs[i].offset != c.offset
    ensures Ranked(Insert(c, cs))
    ensures forall x :: x in Insert(c, cs) <==> x == c || x in cs
    ensures |Insert(c, cs)| == |cs| + 1
  {
    if cs != [] && Before(cs[0], c) {
      var rest := Insert(c, cs[1..]);
      InsertKeepsRanked(c, cs[1..]);
      forall i | 0 <= i < |rest|
        ensures Before(cs[0], rest[i])
      {
        assert rest[i] in rest;
        if rest[i] != c {
          var j :| 0 <= j < |cs[1..]| && cs[1..][j] == rest[i];
          assert cs[j + 1] == rest[i];
        }
      }
      assert forall x :: x in cs <==> x == cs[0] || x in cs[1..];
    }
  }

  lemma {:induction false} SortRanks(cs: seq<IvCandidate>)
    requires DistinctOffsets(cs)
    ensures Ranked(Sort(cs))
    ensures forall x :: x in Sort(cs) <==> x in cs
    ensures |Sort(cs)| == |cs|
  {
    if cs != [] {
      SortRanks(cs[1..]);
      var rest := Sort(cs[1..]);
      forall i | 0 <= i < |rest|
        ensures rest[i].offset != cs[0].offset
      {
        assert rest[i] in rest;
        var j :| 0 <= j < |cs[1..]| && cs[1..][j] == rest[i];
        assert cs[j + 1] == rest[i];
      }
      InsertKeepsRanked(cs[0], rest);
      assert forall x :: x in cs <==> x == cs[0] || x in cs[1..];
    }
  }

  lemma TakeIsTop(sorted: seq<IvCandidate>, all: seq<IvCandidate>, k: nat)
    requires Ranked(sorted) && |sorted| == |all| && forall x :: x in sorted <==> x in all
    ensures IsTop(sorted[..Min(k, |sorted|)], all, k)
  {
    var best := sorted[..Min(k, |sorted|)];
    forall i | 0 <= i < |best|
      ensures best[i] in all
    {
      assert sorted[i] in sorted;
    }
    forall c, i | c in all && c !in best && 0 <= i < |best|
      ensures Before(best[i], c)
    {
      assert c in sorted;
      var j :| 0 <= j < |sorted| && sorted[j] == c;
    }
  }

  /** The order is strict and total on distinct offsets, so the answer is unique. */
  lemma TopIsUnique(a: seq<IvCandidate>, b: seq<IvCandidate>, all: seq<IvCandidate>, k: nat)
    requires DistinctOffsets(all) && IsTop(a, all, k) && IsTop(b, all, k)
    ensures a == b
  {
    TopAgree(a, b, all, k, |a|);
    assert a[..|a|] == a && b[..|a|] == b;
  }

  lemma {:induction false} TopAgree(a: seq<IvCandidate>, b: seq<IvCandidate>, all: seq<IvCandidate>, k: nat, n: nat)
    requires DistinctOffsets(all) && IsTop(a, all, k) && IsTop(b, all, k) && n <= |a|
    ensures a[..n] == b[..n]
  {
    if n != 0 {
      TopAgree(a, b, all, k, n - 1);
      var i := n - 1;
      assert forall j :: 0 <= j < i ==> a[j] == a[..i][j] && b[j] == b[..i][j];
      TopNotLater(a, b, all, k, i);
      TopNotLater(b, a, all, k, i);
    }
  }

  /** After a common prefix, neither answer can put an earlier candidate than the other. */
  lemma TopNotLater(a: seq<IvCandidate>, b: seq<IvCandidate>, all: seq<IvCandidate>, k: nat, i: nat)
    requires IsTop(a, all, k) && IsTop(b, all, k) && i < |a|
    requires forall j :: 0 <= j < i ==> a[j] == b[j]
    ensures i < |b| && (a[i] == b[i] || Before(b[i], a[i]))
  {
    if a[i] in b {
      var j :| 0 <= j < |b| && b[j] == a[i];
    } else {
      assert a[i] in all;
    }
  }

  lemma AcceptedIsExact(s: Search)
    ensures DistinctOffsets(Accepted(s))
    ensures forall c :: c in Accepted(s) <==> CandidateAt(s, c.offset) == Some(c)
  {
    CollectByIndex(Candidates(s), (c: IvCandidate) => c.offset, s.Total());
  }

  /**
   * What a candidate stands for: the window of the dump at its offset, the block 0 it gives, the
   * oracle that judges this block with the verified tail behind it, and the share of printable
   * characters of the block.
   */
  ghost predicate IsCandidate(s: Search, c: IvCandidate, i: nat) {
    && c.offset + s.block <= |s.dump| && c.iv == s.dump[c.offset..c.offset + s.block]
    && c.block0 == Xor(s.dec0, c.iv)
    && IsBest(s.oracles, c.block0 + s.tail, i)
    && c.confidence == s.oracles[i].confidence && c.matchedBy == s.oracles[i].name
    && IsShare(c.block0, c.plausibility)
  }

  /** The score is the share of printable characters in permille, rounded down. */
  ghost predicate IsShare(s: seq<byte>, score: nat) {
    match Utf8.Decode(s)
    case None => score == 0
    case Some(cs) =>
      if cs == [] then score == 0
      else score * |cs| <= 1000 * Utf8.CountPrintable(cs) < (score + 1) * |cs|
  }

  /** Every accepted candidate is one. */
  lemma CandidatesAreJudged(s: Search)
    ensures forall c :: c in Accepted(s) ==> exists i: nat :: IsCandidate(s, c, i)
  {
    AcceptedIsExact(s);
    forall c | c in Accepted(s)
      ensures exists i: nat :: IsCandidate(s, c, i)
    {
      var i := JudgeOf(s, c);
    }
  }

  /** A window of the dump is accepted exactly when some oracle accepts the text it gives. */
  lemma WindowIsAcceptedIff(s: Search, o: nat)
    requires 0 < s.block && o + s.block <= |s.dump|
    ensures (exists c :: c in Accepted(s) && c.offset == o) <==>
      exists i :: 0 <= i < |s.oracles| && s.oracles[i].verify(Xor(s.dec0, s.dump[o..o + s.block]) + s.tail)
  {
    CandidateIff(s, o);
    AcceptedIsExact(s);
    if CandidateAt(s, o).Some? {
      assert CandidateAt(s, o).value in Accepted(s);
    }
  }

  lemma CandidateIff(s: Search, o: nat)
    requires 0 < s.block && o + s.block <= |s.dump|
    ensures CandidateAt(s, o).Some? ==> CandidateAt(s, o).value.offset == o
    ensures CandidateAt(s, o).Some? <==>
      exists i :: 0 <= i < |s.oracles| && s.oracles[i].verify(Xor(s.dec0, s.dump[o..o + s.block]) + s.tail)
  {
    BestMatchIsBest(s.oracles, Xor(s.dec0, s.dump[o..o + s.block]) + s.tail);
  }

  lemma JudgeOf(s: Search, c: IvCandidate) returns (i: nat)
    requires CandidateAt(s, c.offset) == Some(c)
    ensures IsCandidate(s, c, i)
  {
    var text := c.block0 + s.tail;
    BestMatchIsBest(s.oracles, text);
    Utf8.PlausibilityIsExact(c.block0);
    i :| IsBest(s.oracles, text, i) && c.matchedBy == s.oracles[i].name && c.confidence == s.oracles[i].confidence;
  }

  // ------------------------------------------------------------ the search

  /** The answer of `find_iv`. */
  function BestIvs(s: Search): seq<IvCandidate> {
    var sorted := Sort(Accepted(s));
    sorted[..Min(CANDIDATES_MAX, |sorted|)]
  }

  /** Exactly the best eight accepted windows, and no other sequence is. */
  lemma BestIvsIsTop(s: Search)
    ensures IsTop(BestIvs(s), Accepted(s), CANDIDATES_MAX)
    ensures forall other :: IsTop(other, Accepted(s), CANDIDATES_MAX) ==> other == BestIvs(s)
  {
    AcceptedIsExact(s);
    SortRanks(Accepted(s));
    TakeIsTop(Sort(Accepted(s)), Accepted(s), CANDIDATES_MAX);
    forall other | IsTop(other, Accepted(s), CANDIDATES_MAX)
      ensures other == BestIvs(s)
    {
      TopIsUnique(other, BestIvs(s), Accepted(s), CANDIDATES_MAX);
    }
  }

  /** Nothing accepted ranks before the first answer. */
  lemma HeadIsMinimal(best: seq<IvCandidate>, all: seq<IvCandidate>, k: nat, c: IvCandidate)
    requires IsTop(best, all, k) && 0 < k && c in all
    ensures best != [] && best[0] in all
    ensures best[0] == c || Before(best[0], c)
  {
    if c in best {
      var j :| 0 <= j < |best| && best[j] == c;
    }
  }

  /**
   * The first answer in so many words: no accepted window has a higher confidence, none as high
   * has a higher score, and of those as high in both it comes first in the dump.
   */
  lemma FirstIsMaximal(s: Search, c: IvCandidate)
    requires c in Accepted(s)
    ensures BestIvs(s) != [] && BestIvs(s)[0] in Accepted(s)
    ensures var best := BestIvs(s)[0];
      && (best.confidence == High || c.confidence != High)
      && (best.confidence == Low ==> c.confidence == Low)
      && (best.confidence == c.confidence ==> best.plausibility >= c.plausibility)
      && (best.confidence == c.confidence && best.plausibility == c.plausibility ==> best.offset <= c.offset)
  {
    BestIvsIsTop(s);
    HeadIsMinimal(BestIvs(s), Accepted(s), CANDIDATES_MAX, c);
  }

  /** A candidate ranked before every other accepted one is the first answer. */
  lemma FirstIsBest(s: Search, o: nat)
    requires CandidateAt(s, o).Some?
    requires forall p: nat :: p != o && CandidateAt(s, p).Some? ==>
      Before(CandidateAt(s, o).value, CandidateAt(s, p).value)
    ensures BestIvs(s) != [] && BestIvs(s)[0] == CandidateAt(s, o).value
  {
    var c, best := CandidateAt(s, o).value, BestIvs(s);
    AcceptedIsExact(s);
    BestIvsIsTop(s);
    assert CandidateAt(s, c.offset) == Some(c);
    HeadIsMinimal(best, Accepted(s), CANDIDATES_MAX, c);
    assert CandidateAt(s, best[0].offset) == Some(best[0]);
  }

  /** `find_iv`: collects the accepted windows, sorts them, keeps the first eight. */
  method FindIv(s: Search) returns (best: seq<IvCandidate>)
    requires s.Valid()
    ensures best == BestIvs(s)
    ensures IsTop(best, Accepted(s), CANDIDATES_MAX)
  {
    var candidates: seq<IvCandidate> := [];
    for o := 0 to s.Total()
      invariant candidates == Collect(Candidates(s), 0, o)
    {
      var iv := s.Window(o);
      var b0 := Xor(s.dec0[..s.block], iv);
      assert s.dec0[..s.block] == s.dec0;
      var full := b0;
      full := full + s.tail;
      var matched := BestMatch(s.oracles, full);
      assert Candidates(s)(o) == CandidateAt(s, o);
      if matched.Some? {
        candidates := candidates + [IvCandidate(o, iv, b0, matched.value.name, matched.value.confidence,
                                                Utf8.Plausibility(b0))];
      }
    }
    BestIvsIsTop(s);
    candidates := Sort(candidates);
    best := candidates[..Min(CANDIDATES_MAX, |candidates|)];
  }
}
