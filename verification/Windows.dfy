/**
 * Exhaustive window search: what a `windows(len).enumerate().filter_map(..).collect()`
 * chain returns, sequentially and under any parallel splitting, and the shared
 * counter of windows tried.
 */
module Windows {
  import opened Bytes
  import opened Results

  /** Number of windows of length `len` in a slice of length `n`. */
  function WindowCount(n: nat, len: nat): nat {
    if n < len then 0 else n - len + 1
  }

  /** The values of `f` on lo..hi, in order, with the Nones left out. */
  function Collect<T>(f: nat -> Option<T>, lo: nat, hi: nat): seq<T>
    requires lo <= hi
    decreases hi - lo
  {
    if lo == hi then []
    else Collect(f, lo, hi - 1) + AsSeq(f(hi - 1))
  }

  function AsSeq<T>(o: Option<T>): seq<T> {
    match o
    case None => []
    case Some(v) => [v]
  }

  /** The indices behind `Collect`. */
  function Offsets<T>(f: nat -> Option<T>, lo: nat, hi: nat): seq<nat>
    requires lo <= hi
    decreases hi - lo
  {
    if lo == hi then []
    else Offsets(f, lo, hi - 1) + if f(hi - 1).Some? then [hi - 1] else []
  }

  lemma {:induction false} OffsetsComplete<T>(f: nat -> Option<T>, lo: nat, hi: nat, o: nat)
    requires lo <= o < hi && f(o).Some?
    ensures o in Offsets(f, lo, hi)
    decreases hi - lo
  {
    if o != hi - 1 {
      OffsetsComplete(f, lo, hi - 1, o);
    }
  }

  lemma {:induction false} OffsetsSound<T>(f: nat -> Option<T>, lo: nat, hi: nat)
    requires lo <= hi
    ensures |Offsets(f, lo, hi)| == |Collect(f, lo, hi)|
    ensures forall i :: 0 <= i < |Offsets(f, lo, hi)| ==>
      && lo <= Offsets(f, lo, hi)[i] < hi
      && f(Offsets(f, lo, hi)[i]) == Some(Collect(f, lo, hi)[i])
    ensures forall i, j :: 0 <= i < j < |Offsets(f, lo, hi)| ==>
      Offsets(f, lo, hi)[i] < Offsets(f, lo, hi)[j]
    decreases hi - lo
  {
    if lo != hi {
      OffsetsSound(f, lo, hi - 1);
    }
  }

  /** `Collect` reports exactly the accepted indices, each once, in increasing order. */
  lemma CollectIsExact<T>(f: nat -> Option<T>, lo: nat, hi: nat)
    requires lo <= hi
    ensures var at, found := Offsets(f, lo, hi), Collect(f, lo, hi);
            && |at| == |found|
            && (forall i :: 0 <= i < |at| ==> lo <= at[i] < hi && f(at[i]) == Some(found[i]))
            && (forall i, j :: 0 <= i < j < |at| ==> at[i] < at[j])
            && (forall o :: lo <= o < hi && f(o).Some? ==> o in at)
  {
    OffsetsSound(f, lo, hi);
    forall o | lo <= o < hi && f(o).Some?
      ensures o in Offsets(f, lo, hi)
    {
      OffsetsComplete(f, lo, hi, o);
    }
  }

  lemma CollectMembers<T>(f: nat -> Option<T>, lo: nat, hi: nat, x: T)
    requires lo <= hi
    ensures x in Collect(f, lo, hi) <==> exists o :: lo <= o < hi && f(o) == Some(x)
  {
    CollectIsExact(f, lo, hi);
    var at, found := Offsets(f, lo, hi), Collect(f, lo, hi);
    if x in found {
      var i :| 0 <= i < |found| && found[i] == x;
      assert f(at[i]) == Some(x);
    }
    if o :| lo <= o < hi && f(o) == Some(x) {
      var i :| 0 <= i < |at| && at[i] == o;
      assert found[i] == x;
    }
  }

  /**
   * When every value carries its own index, membership and order can be read off the
   * values: x was collected iff its index yields it, and indices increase.
   */
  lemma CollectByIndex<T(!new)>(f: nat -> Option<T>, index: T -> nat, n: nat)
    requires forall o: nat :: f(o).Some? ==> index(f(o).value) == o < n
    ensures forall x :: x in Collect(f, 0, n) <==> f(index(x)) == Some(x)
    ensures forall i, j :: 0 <= i < j < |Collect(f, 0, n)| ==>
      index(Collect(f, 0, n)[i]) < index(Collect(f, 0, n)[j])
  {
    CollectIsExact(f, 0, n);
    var at, found := Offsets(f, 0, n), Collect(f, 0, n);
    assert forall i :: 0 <= i < |found| ==> index(found[i]) == at[i];
    forall x
      ensures x in found <==> f(index(x)) == Some(x)
    {
      CollectMembers(f, 0, n, x);
    }
  }

  lemma {:induction false} CollectSplit<T>(f: nat -> Option<T>, lo: nat, mid: nat, hi: nat)
    requires lo <= mid <= hi
    ensures Collect(f, lo, hi) == Collect(f, lo, mid) + Collect(f, mid, hi)
    decreases hi - mid
  {
    if mid != hi {
      CollectSplit(f, lo, mid, hi - 1);
    }
  }

  // ------------------------------------------------- parallel splitting

  /** How a work-stealing scheduler cut the index range. */
  datatype Split = Whole | Cut(at: nat, left: Split, right: Split)

  /** Each part is collected on its own and the parts are concatenated in order. */
  function CollectSplitted<T>(f: nat -> Option<T>, lo: nat, hi: nat, split: Split): seq<T>
    requires lo <= hi
    decreases split
  {
    match split
    case Whole => Collect(f, lo, hi)
    case Cut(at, left, right) =>
      if lo <= at <= hi then
        CollectSplitted(f, lo, at, left) + CollectSplitted(f, at, hi, right)
      else
        Collect(f, lo, hi)
  }

  /** Every splitting gives the sequential result. */
  lemma {:induction false} SplittingIsInvisible<T>(f: nat -> Option<T>, lo: nat, hi: nat, split: Split)
    requires lo <= hi
    ensures CollectSplitted(f, lo, hi, split) == Collect(f, lo, hi)
    decreases split
  {
    match split
    case Whole =>
    case Cut(at, left, right) =>
      if lo <= at <= hi {
        SplittingIsInvisible(f, lo, at, left);
        SplittingIsInvisible(f, at, hi, right);
        CollectSplit(f, lo, at, hi);
      }
  }

  // ---------------------------------------------------- atomic counter

  /** An `AtomicU64`: `fetch_add` wraps around; `total` counts without wrapping. */
  class AtomicU64 {
    var value: nat
    ghost var total: nat

    ghost predicate Valid()
      reads this
    {
      value == total % U64
    }

    constructor ()
      ensures Valid() && total == 0
    {
      value := 0;
      total := 0;
    }

    method FetchAddOne()
      requires Valid()
      modifies this
      ensures Valid() && total == old(total) + 1
    {
      value := (value + 1) % U64;
      total := total + 1;
      WrapStep(total - 1, 1);
    }
  }

  lemma WrapStep(a: nat, b: nat)
    ensures (a % U64 + b) % U64 == (a + b) % U64
  {}

  /** Windows still to be tried, per worker, and the shared counter. */
  datatype Workers = Workers(todo: seq<nat>, counter: nat)

  function Sum(s: seq<nat>): nat {
    if s == [] then 0 else s[0] + Sum(s[1..])
  }

  /** Worker `w` performs one atomic increment. */
  ghost predicate WorkerStep(s: Workers, t: Workers, w: nat) {
    && w < |s.todo| && s.todo[w] > 0
    && t == Workers(s.todo[w := s.todo[w] - 1], (s.counter + 1) % U64)
  }

  /** An interleaving: the states between the increments of `schedule`. */
  ghost predicate IsRun(states: seq<Workers>, schedule: seq<nat>) {
    && |states| == |schedule| + 1
    && forall i :: 0 <= i < |schedule| ==> WorkerStep(states[i], states[i + 1], schedule[i])
  }

  lemma {:induction false} SumDecrement(s: seq<nat>, w: nat)
    requires w < |s| && s[w] > 0
    ensures Sum(s[w := s[w] - 1]) == Sum(s) - 1
  {
    var t := s[w := s[w] - 1];
    if w == 0 {
      assert t[1..] == s[1..];
    } else {
      SumDecrement(s[1..], w - 1);
      assert t[1..] == s[1..][w - 1 := s[w] - 1];
    }
  }

  lemma {:induction false} SumZero(s: seq<nat>)
    ensures Sum(s) == 0 <==> forall w :: 0 <= w < |s| ==> s[w] == 0
  {
    if s != [] {
      SumZero(s[1..]);
      assert forall w :: 0 < w < |s| ==> s[w] == s[1..][w - 1];
      assert forall w :: 0 <= w < |s[1..]| ==> s[1..][w] == s[w + 1];
    }
  }

  /**
   * Whatever the interleaving, a finished run has made one increment per window:
   * its length is the number of windows, and the counter has advanced by that number mod 2^64.
   */
  lemma {:induction false} InterleavingsAgree(states: seq<Workers>, schedule: seq<nat>)
    requires IsRun(states, schedule)
    requires states[0].counter < U64
    requires forall w :: 0 <= w < |states[|schedule|].todo| ==> states[|schedule|].todo[w] == 0
    ensures |schedule| == Sum(states[0].todo)
    ensures states[|schedule|].counter == (states[0].counter + Sum(states[0].todo)) % U64
    decreases |schedule|
  {
    if schedule == [] {
      SumZero(states[0].todo);
    } else {
      assert WorkerStep(states[0], states[1], schedule[0]);
      SumDecrement(states[0].todo, schedule[0]);
      var rest := states[1..];
      forall i | 0 <= i < |schedule[1..]|
        ensures WorkerStep(rest[i], rest[i + 1], schedule[1..][i])
      {
        assert WorkerStep(states[i + 1], states[i + 2], schedule[i + 1]);
      }
      InterleavingsAgree(rest, schedule[1..]);
      WrapStep(states[0].counter + 1, Sum(rest[0].todo));
    }
  }

  /** The workers on one search: an interleaving of their increments, from start to finish. */
  datatype Run = Run(states: seq<Workers>, schedule: seq<nat>)

  /** n windows are split among any number of workers, whose increments take the counter from one value to another. */
  ghost predicate Counts(r: Run, n: nat, from: nat, to: nat) {
    && IsRun(r.states, r.schedule)
    && Sum(r.states[0].todo) == n && r.states[0].counter == from
    && (forall w :: 0 <= w < |r.states[|r.schedule|].todo| ==> r.states[|r.schedule|].todo[w] == 0)
    && r.states[|r.schedule|].counter == to
  }

  /** One search after the other, all on the same counter. */
  ghost predicate AreRuns(runs: seq<Run>, counters: seq<nat>, ns: seq<nat>) {
    && |runs| == |ns| && |counters| == |ns| + 1 && counters[0] == 0
    && forall i :: 0 <= i < |runs| ==> Counts(runs[i], ns[i], counters[i], counters[i + 1])
  }
}
