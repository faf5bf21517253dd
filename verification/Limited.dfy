/**
 * A search made of several parts, run one after the other into one list with one limit on
 * its length: it fails at the first part that fails and stops once the limit is reached.
 */
module Limited {
  import opened Bytes
  import opened Results
  import opened Windows

  /** The hits of one part and the number of windows it tried. */
  datatype Found<T> = Found(hits: seq<T>, tried: nat)

  /** The first k parts with no limit on the hits: in order, windows added up. */
  function Unlimited<T, E>(ps: seq<Result<Found<T>, E>>, k: nat): Result<Found<T>, E>
    requires k <= |ps|
  {
    if k == 0 then Ok(Found([], 0))
    else
      var before :- Unlimited(ps, k - 1);
      var part :- ps[k - 1];
      Ok(Found(before.hits + part.hits, before.tried + part.tried))
  }

  predicate LimitReached<T>(maxHits: nat, hits: seq<T>) {
    0 < maxHits <= |hits|
  }

  /** The search from part k on: it stops at the end or as soon as the limit is reached. */
  function From<T, E>(ps: seq<Result<Found<T>, E>>, maxHits: nat, k: nat): Result<Found<T>, E>
    requires k <= |ps|
    decreases |ps| - k
  {
    var sofar :- Unlimited(ps, k);
    if LimitReached(maxHits, sofar.hits) then Ok(Found(sofar.hits[..maxHits], sofar.tried))
    else if k == |ps| then Ok(sofar)
    else From(ps, maxHits, k + 1)
  }

  /** The result with the window count in a u64 counter. */
  ghost predicate Counted<T, E>(exact: Result<Found<T>, E>, r: Result<Found<T>, E>) {
    match exact
    case Err(error) => r == Err(error)
    case Ok(part) => r == Ok(Found(part.hits, part.tried % U64))
  }

  /** What one more part does to the search. */
  lemma OneMorePart<T, E>(ps: seq<Result<Found<T>, E>>, maxHits: nat, i: nat, hits: seq<T>, total: nat)
    requires i < |ps| && Unlimited(ps, i) == Ok(Found(hits, total)) && !LimitReached(maxHits, hits)
    ensures match ps[i]
            case Err(error) => From(ps, maxHits, i) == Err(error)
            case Ok(part) =>
              var more := hits + part.hits;
              && Unlimited(ps, i + 1) == Ok(Found(more, total + part.tried))
              && From(ps, maxHits, i) ==
                 if LimitReached(maxHits, more) then Ok(Found(more[..maxHits], total + part.tried))
                 else From(ps, maxHits, i + 1)
  {}

  /** The loop has run through the first i parts: `hits` and `total` hold their sum, and the limit is not reached. */
  ghost predicate Reached<T, E>(ps: seq<Result<Found<T>, E>>, maxHits: nat, i: nat, hits: seq<T>, total: nat) {
    && i <= |ps|
    && Unlimited(ps, i).Ok?
    && hits == Unlimited(ps, i).value.hits
    && total == Unlimited(ps, i).value.tried
    && !LimitReached(maxHits, hits)
    && From(ps, maxHits, 0) == From(ps, maxHits, i)
  }

  /** Adding what one part yields either ends the scan or gets to the next part. */
  lemma ReachedNext<T, E>(ps: seq<Result<Found<T>, E>>, maxHits: nat, i: nat, hits: seq<T>, total: nat,
                          found: seq<T>, after: nat)
    requires i < |ps| && Reached(ps, maxHits, i, hits, total)
    requires ps[i].Ok? && found == ps[i].value.hits && after == total + ps[i].value.tried
    ensures LimitReached(maxHits, hits + found) ==>
      From(ps, maxHits, 0) == Ok(Found((hits + found)[..maxHits], after))
    ensures !LimitReached(maxHits, hits + found) ==> Reached(ps, maxHits, i + 1, hits + found, after)
  {
    OneMorePart(ps, maxHits, i, hits, total);
  }

  lemma ReachedError<T, E>(ps: seq<Result<Found<T>, E>>, maxHits: nat, i: nat, hits: seq<T>, total: nat)
    requires i < |ps| && Reached(ps, maxHits, i, hits, total) && ps[i].Err?
    ensures From(ps, maxHits, 0) == Err(ps[i].error)
  {
    OneMorePart(ps, maxHits, i, hits, total);
  }

  // -------------------------------------------------------------- theorems

  /** The first k lists, one after the other. */
  function Concat<T>(lists: seq<seq<T>>, k: nat): seq<T>
    requires k <= |lists|
  {
    if k == 0 then [] else Concat(lists, k - 1) + lists[k - 1]
  }

  /** The hits of the first k parts are theirs one after the other, if they all succeed. */
  lemma {:induction false} UnlimitedIsConcat<T, E>(ps: seq<Result<Found<T>, E>>, lists: seq<seq<T>>, k: nat)
    requires k <= |ps| == |lists| && forall i :: 0 <= i < |ps| && ps[i].Ok? ==> ps[i].value.hits == lists[i]
    ensures Unlimited(ps, k).Ok? <==> forall i :: 0 <= i < k ==> ps[i].Ok?
    ensures Unlimited(ps, k).Ok? ==> Unlimited(ps, k).value.hits == Concat(lists, k)
  {
    if k != 0 {
      UnlimitedIsConcat(ps, lists, k - 1);
    }
  }

  /** Later parts only append. */
  lemma {:induction false} UnlimitedGrows<T, E>(ps: seq<Result<Found<T>, E>>, j: nat, k: nat)
    requires j <= k <= |ps| && Unlimited(ps, k).Ok?
    ensures Unlimited(ps, j).Ok?
    ensures Unlimited(ps, j).value.hits <= Unlimited(ps, k).value.hits
    ensures Unlimited(ps, j).value.tried <= Unlimited(ps, k).value.tried
    decreases k
  {
    if j != k {
      UnlimitedGrows(ps, j, k - 1);
    }
  }

  /** The search from part k on stops behind the first j parts: there the limit is first reached, or the parts end. */
  ghost predicate StopsAfter<T, E>(ps: seq<Result<Found<T>, E>>, maxHits: nat, k: nat, j: nat) {
    && k <= j <= |ps| && Unlimited(ps, j).Ok?
    && (forall i :: k <= i < j ==> Unlimited(ps, i).Ok? && !LimitReached(maxHits, Unlimited(ps, i).value.hits))
    && (j == |ps| || LimitReached(maxHits, Unlimited(ps, j).value.hits))
  }

  /**
   * A search that succeeds, under whatever limit, has run exactly the first j parts in full:
   * it returns their hits, cut at the limit, and all their windows. Later parts are not looked at.
   */
  lemma {:induction false} SearchStops<T, E>(ps: seq<Result<Found<T>, E>>, maxHits: nat, k: nat) returns (j: nat)
    requires k <= |ps| && From(ps, maxHits, k).Ok?
    ensures StopsAfter(ps, maxHits, k, j)
    ensures var all, r := Unlimited(ps, j).value, From(ps, maxHits, k).value;
            && r.hits == CutAt(maxHits, all.hits)
            && r.tried == all.tried
    decreases |ps| - k
  {
    if LimitReached(maxHits, Unlimited(ps, k).value.hits) || k == |ps| {
      j := k;
    } else {
      j := SearchStops(ps, maxHits, k + 1);
    }
  }

  function CutAt<T>(maxHits: nat, hits: seq<T>): seq<T> {
    if maxHits == 0 then hits else hits[..Min(maxHits, |hits|)]
  }

  lemma StopsHere<T, E>(ps: seq<Result<Found<T>, E>>, maxHits: nat, j: nat)
    requires j <= |ps| && Unlimited(ps, j).Ok?
    requires j == |ps| || LimitReached(maxHits, Unlimited(ps, j).value.hits)
    ensures From(ps, maxHits, j)
         == Ok(Found(CutAt(maxHits, Unlimited(ps, j).value.hits), Unlimited(ps, j).value.tried))
  {
    var hits := Unlimited(ps, j).value.hits;
    if !LimitReached(maxHits, hits) {
      assert hits[..|hits|] == hits;
    }
  }

  /** Conversely, a search that can stop behind the first j parts does, and succeeds. */
  lemma {:induction false} StoppingSucceeds<T, E>(ps: seq<Result<Found<T>, E>>, maxHits: nat, k: nat, j: nat)
    requires StopsAfter(ps, maxHits, k, j)
    ensures From(ps, maxHits, k)
         == Ok(Found(CutAt(maxHits, Unlimited(ps, j).value.hits), Unlimited(ps, j).value.tried))
    decreases j - k
  {
    if k == j {
      StopsHere(ps, maxHits, j);
    } else {
      StoppingSucceeds(ps, maxHits, k + 1, j);
    }
  }

  /** If every part succeeds, the search stops somewhere. */
  lemma {:induction false} SomewhereStops<T, E>(ps: seq<Result<Found<T>, E>>, maxHits: nat, k: nat) returns (j: nat)
    requires k <= |ps| && Unlimited(ps, k).Ok? && forall i :: 0 <= i < |ps| ==> ps[i].Ok?
    ensures StopsAfter(ps, maxHits, k, j)
    decreases |ps| - k
  {
    if k == |ps| || LimitReached(maxHits, Unlimited(ps, k).value.hits) {
      j := k;
    } else {
      j := SomewhereStops(ps, maxHits, k + 1);
    }
  }

  /** The search from part k on gets to part j, and j fails. */
  ghost predicate FailsAt<T, E>(ps: seq<Result<Found<T>, E>>, maxHits: nat, k: nat, j: nat) {
    && k <= j < |ps| && ps[j].Err?
    && forall i :: k <= i <= j ==> Unlimited(ps, i).Ok? && !LimitReached(maxHits, Unlimited(ps, i).value.hits)
  }

  /** A search that fails does so at the first failing part, which it gets to, with the error of that part. */
  lemma {:induction false} SearchFails<T, E>(ps: seq<Result<Found<T>, E>>, maxHits: nat, k: nat) returns (j: nat)
    requires k <= |ps| && Unlimited(ps, k).Ok? && From(ps, maxHits, k).Err?
    ensures FailsAt(ps, maxHits, k, j) && From(ps, maxHits, k) == Err(ps[j].error)
    decreases |ps| - k
  {
    if ps[k].Err? {
      j := k;
    } else {
      j := SearchFails(ps, maxHits, k + 1);
    }
  }

  /** A limit gives a prefix of the hits of the search without a limit, and never more windows. */
  lemma {:induction false} LimitIsPrefix<T, E>(ps: seq<Result<Found<T>, E>>, maxHits: nat, k: nat)
    requires k <= |ps| && Unlimited(ps, |ps|).Ok? && maxHits > 0
    ensures From(ps, maxHits, k).Ok?
    ensures var all := Unlimited(ps, |ps|).value;
            && From(ps, maxHits, k).value.hits == all.hits[..Min(maxHits, |all.hits|)]
            && From(ps, maxHits, k).value.tried <= all.tried
    decreases |ps| - k
  {
    UnlimitedGrows(ps, k, |ps|);
    if !LimitReached(maxHits, Unlimited(ps, k).value.hits) && k != |ps| {
      LimitIsPrefix(ps, maxHits, k + 1);
    }
  }

  /** Without a limit the search goes through every part, and fails iff one of them does. */
  lemma {:induction false} NoLimitRunsAll<T, E>(ps: seq<Result<Found<T>, E>>, k: nat)
    requires k <= |ps|
    ensures From(ps, 0, k).Ok? <==> Unlimited(ps, |ps|).Ok?
    ensures From(ps, 0, k).Ok? ==> From(ps, 0, k) == Unlimited(ps, |ps|)
    decreases |ps| - k
  {
    if Unlimited(ps, |ps|).Ok? {
      UnlimitedGrows(ps, k, |ps|);
    }
    if k != |ps| {
      NoLimitRunsAll(ps, k + 1);
    }
  }

  lemma {:induction false} HitHasOrigin<T, E>(ps: seq<Result<Found<T>, E>>, k: nat, h: T) returns (p: nat)
    requires k <= |ps| && Unlimited(ps, k).Ok? && h in Unlimited(ps, k).value.hits
    ensures p < k && ps[p].Ok? && h in ps[p].value.hits
  {
    if h in Unlimited(ps, k - 1).value.hits {
      p := HitHasOrigin(ps, k - 1, h);
    } else {
      p := k - 1;
    }
  }

  lemma {:induction false} PartIsIncluded<T, E>(ps: seq<Result<Found<T>, E>>, k: nat, p: nat)
    requires p < k <= |ps| && Unlimited(ps, k).Ok?
    ensures ps[p].Ok?
    ensures forall h :: h in ps[p].value.hits ==> h in Unlimited(ps, k).value.hits
  {
    if p != k - 1 {
      PartIsIncluded(ps, k - 1, p);
    }
  }

  function SumUpTo(ns: seq<nat>, k: nat): nat
    requires k <= |ns|
  {
    if k == 0 then 0 else SumUpTo(ns, k - 1) + ns[k - 1]
  }

  lemma {:induction false} TriedAddsUp<T, E>(ps: seq<Result<Found<T>, E>>, ns: seq<nat>, k: nat)
    requires k <= |ps| == |ns| && Unlimited(ps, k).Ok?
    requires forall i :: 0 <= i < |ps| && ps[i].Ok? ==> ps[i].value.tried == ns[i]
    ensures Unlimited(ps, k).value.tried == SumUpTo(ns, k)
  {
    if k != 0 {
      TriedAddsUp(ps, ns, k - 1);
    }
  }

  lemma {:induction false} TriedEach<T, E>(ps: seq<Result<Found<T>, E>>, w: nat, k: nat)
    requires k <= |ps| && Unlimited(ps, k).Ok?
    requires forall i :: 0 <= i < |ps| && ps[i].Ok? ==> ps[i].value.tried == w
    ensures Unlimited(ps, k).value.tried == k * w
  {
    if k != 0 {
      TriedEach(ps, w, k - 1);
      assert k * w == (k - 1) * w + w;
    }
  }

  /** However the increments of each search interleave, the counter ends at the sum of the windows, mod 2^64. */
  lemma {:induction false} RunsAddUp(runs: seq<Run>, counters: seq<nat>, ns: seq<nat>, k: nat)
    requires AreRuns(runs, counters, ns) && k <= |ns|
    ensures counters[k] == SumUpTo(ns, k) % U64
  {
    if k != 0 {
      RunsAddUp(runs, counters, ns, k - 1);
      assert Counts(runs[k - 1], ns[k - 1], counters[k - 1], counters[k]);
      InterleavingsAgree(runs[k - 1].states, runs[k - 1].schedule);
      WrapStep(SumUpTo(ns, k - 1), ns[k - 1]);
    }
  }
}
