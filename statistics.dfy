/** `calculate_statistics` of `test_speed.py`: one pass over the results
    that fills a bucket per operation type, then, per bucket with latency
    data, the average, minimum, maximum and the rank-selected percentiles
    of the sorted latencies. Printing is left out; what is printed is the
    `LatencySummary`. */
module Statistics {
  import opened Wrappers
  import opened LoadTest

  /** The per-type dictionary of the `defaultdict`. `conflicts` is the key
      that is added only when the first 409 of that type is seen. */
  datatype Bucket = Bucket(count: nat, totalLatency: int, latencies: seq<int>,
                           errors: nat, success: nat, conflicts: Option<nat>)

  /** The `defaultdict` factory. */
  const EmptyBucket: Bucket := Bucket(0, 0, [], 0, 0, None)

  /** `isinstance(status, int) and 200 <= status < 300`. */
  predicate IsSuccess(s: Status) {
    s.Http? && 200 <= s.code < 300
  }

  function Sum(xs: seq<int>): int {
    if xs == [] then 0 else Sum(xs[..|xs| - 1]) + xs[|xs| - 1]
  }

  /** Lines 153-164: one result added to the bucket of its type. */
  function Record(b: Bucket, r: RequestResult): Bucket {
    var b' := b.(count := b.count + 1, totalLatency := b.totalLatency + r.latency,
                 latencies := b.latencies + [r.latency]);
    if IsSuccess(r.status) then b'.(success := b'.success + 1)
    else if r.status == Http(409) then
      b'.(errors := b'.errors + 1, conflicts := Some(if b'.conflicts.Some? then b'.conflicts.value + 1 else 1))
    else b'.(errors := b'.errors + 1)
  }

  /** The dictionary after the loop has seen `rs`. */
  function Tally(rs: seq<RequestResult>): map<string, Bucket> {
    if rs == [] then map[]
    else
      var stats := Tally(rs[..|rs| - 1]);
      var r := rs[|rs| - 1];
      stats[r.opType := Record(if r.opType in stats then stats[r.opType] else EmptyBucket, r)]
  }

  /** The counting loop of `calculate_statistics`. */
  method CalculateStatistics(latenciesData: seq<RequestResult>) returns (stats: map<string, Bucket>)
    ensures stats == Tally(latenciesData)
  {
    stats := map[];
    for i := 0 to |latenciesData|
      invariant stats == Tally(latenciesData[..i])
    {
      var record := latenciesData[i];
      var opType := record.opType;
      var data := if opType in stats then stats[opType] else EmptyBucket;
      ghost var before := data;
      data := data.(count := data.count + 1);
      data := data.(totalLatency := data.totalLatency + record.latency);
      data := data.(latencies := data.latencies + [record.latency]);
      if record.status.Http? && 200 <= record.status.code < 300 {
        data := data.(success := data.success + 1);
      } else {
        data := data.(errors := data.errors + 1);
        if record.status == Http(409) {
          if data.conflicts.None? {
            data := data.(conflicts := Some(0));
          }
          data := data.(conflicts := Some(data.conflicts.value + 1));
        }
      }
      assert data == Record(before, record);
      TallyStep(latenciesData, i);
      stats := stats[opType := data];
    }
    assert latenciesData[..|latenciesData|] == latenciesData;
  }

  /** One more result extends the dictionary by one `Record`. */
  lemma TallyStep(rs: seq<RequestResult>, i: nat)
    requires i < |rs|
    ensures var stats := Tally(rs[..i]);
            Tally(rs[..i + 1]) ==
              stats[rs[i].opType := Record(if rs[i].opType in stats then stats[rs[i].opType] else EmptyBucket, rs[i])]
  {
    assert rs[..i + 1][..i] == rs[..i];
  }

  // ---------------------------------------------------------------------
  // A closed-form description of each bucket

  /** The results of type `t`, in order. */
  function OfType(rs: seq<RequestResult>, t: string): (xs: seq<RequestResult>)
    ensures |xs| <= |rs|
    ensures forall k :: 0 <= k < |xs| ==> xs[k].opType == t
  {
    if rs == [] then []
    else OfType(rs[..|rs| - 1], t) + (if rs[|rs| - 1].opType == t then [rs[|rs| - 1]] else [])
  }

  function Latencies(rs: seq<RequestResult>): (ls: seq<int>)
    ensures |ls| == |rs|
    ensures forall k :: 0 <= k < |rs| ==> ls[k] == rs[k].latency
  {
    seq(|rs|, k requires 0 <= k < |rs| => rs[k].latency)
  }

  function SuccessCount(rs: seq<RequestResult>): nat {
    if rs == [] then 0 else SuccessCount(rs[..|rs| - 1]) + (if IsSuccess(rs[|rs| - 1].status) then 1 else 0)
  }

  function ConflictCount(rs: seq<RequestResult>): nat {
    if rs == [] then 0 else ConflictCount(rs[..|rs| - 1]) + (if rs[|rs| - 1].status == Http(409) then 1 else 0)
  }

  /** Successes and 409s are disjoint, so neither count exceeds what the
      other leaves. */
  lemma {:induction false} CountsBounded(rs: seq<RequestResult>)
    ensures SuccessCount(rs) + ConflictCount(rs) <= |rs|
  {
    if rs != [] {
      CountsBounded(rs[..|rs| - 1]);
    }
  }

  /** What the bucket of a type holds once the loop has seen the results
      `xs` of that type, stated without the loop. */
  function BucketOf(xs: seq<RequestResult>): Bucket
  {
    CountsBounded(xs);
    var c := ConflictCount(xs);
    Bucket(|xs|, Sum(Latencies(xs)), Latencies(xs), |xs| - SuccessCount(xs), SuccessCount(xs),
           if c > 0 then Some(c) else None)
  }

  /** The loop's dictionary has a key for exactly the types that occur, and
      each bucket is `BucketOf` the results of its type. */
  lemma {:induction false} TallyIsBucketOf(rs: seq<RequestResult>, t: string)
    ensures t in Tally(rs) <==> OfType(rs, t) != []
    ensures t in Tally(rs) ==> Tally(rs)[t] == BucketOf(OfType(rs, t))
  {
    if rs != [] {
      var init := rs[..|rs| - 1];
      var r := rs[|rs| - 1];
      TallyIsBucketOf(init, t);
      if r.opType == t {
        var xs := OfType(init, t);
        assert OfType(rs, t) == xs + [r];
        BucketOfSnoc(xs, r);
        if t !in Tally(init) {
          assert Latencies([]) == [];
          assert BucketOf(xs) == EmptyBucket;
        }
      } else {
        assert OfType(rs, t) == OfType(init, t) + [];
        assert OfType(rs, t) == OfType(init, t);
        assert Tally(rs) == Tally(init)[r.opType := Tally(rs)[r.opType]];
      }
    }
  }

  /** One more result of the type updates the closed form as `Record` does. */
  lemma BucketOfSnoc(xs: seq<RequestResult>, r: RequestResult)
    ensures BucketOf(xs + [r]) == Record(BucketOf(xs), r)
  {
    var ys := xs + [r];
    assert ys[..|ys| - 1] == xs;
    assert Latencies(ys) == Latencies(xs) + [r.latency];
    assert Sum(Latencies(ys)) == Sum(Latencies(xs)) + r.latency by {
      assert Latencies(ys)[..|ys| - 1] == Latencies(xs);
    }
    assert SuccessCount(ys) == SuccessCount(xs) + (if IsSuccess(r.status) then 1 else 0);
    assert ConflictCount(ys) == ConflictCount(xs) + (if r.status == Http(409) then 1 else 0);
    CountsBounded(xs);
  }

  /** What every bucket of the loop satisfies: `count == success + errors`,
      one latency per request and their sum as the total, and a
      `conflicts` key only with at least one and at most `errors` 409s. */
  predicate WellFormed(b: Bucket) {
    && b.count == b.success + b.errors
    && |b.latencies| == b.count
    && b.totalLatency == Sum(b.latencies)
    && (b.conflicts.Some? ==> 1 <= b.conflicts.value <= b.errors)
  }

  lemma BucketOfWellFormed(xs: seq<RequestResult>)
    ensures WellFormed(BucketOf(xs))
  {
    CountsBounded(xs);
  }

  /** Every type in the result has a well-formed bucket whose count is the
      number of its results, and a `conflicts` key exactly when one of its
      results was a 409. */
  lemma TallyBuckets(rs: seq<RequestResult>, t: string)
    requires t in Tally(rs)
    ensures WellFormed(Tally(rs)[t])
    ensures Tally(rs)[t].count == |OfType(rs, t)| >= 1
    ensures Tally(rs)[t].success == SuccessCount(OfType(rs, t))
    ensures Tally(rs)[t].latencies == Latencies(OfType(rs, t))
    ensures Tally(rs)[t].conflicts.Some? <==> ConflictCount(OfType(rs, t)) > 0
  {
    TallyIsBucketOf(rs, t);
    BucketOfWellFormed(OfType(rs, t));
  }

  /** Sum of the counts over all the buckets of a dictionary. */
  ghost function TotalCount(stats: map<string, Bucket>): nat
    decreases |stats.Keys|
  {
    if stats.Keys == {} then 0
    else
      var t :| t in stats.Keys;
      assert (stats - {t}).Keys == stats.Keys - {t};
      stats[t].count + TotalCount(stats - {t})
  }

  lemma {:induction false} TotalCountRemove(stats: map<string, Bucket>, t: string)
    requires t in stats
    ensures TotalCount(stats) == stats[t].count + TotalCount(stats - {t})
    decreases |stats.Keys|
  {
    var u :| u in stats.Keys && TotalCount(stats) == stats[u].count + TotalCount(stats - {u});
    if u != t {
      var withoutU, withoutT := stats - {u}, stats - {t};
      assert withoutU.Keys == stats.Keys - {u} && withoutT.Keys == stats.Keys - {t};
      assert withoutU[t] == stats[t] && withoutT[u] == stats[u];
      TotalCountRemove(withoutU, t);
      TotalCountRemove(withoutT, u);
      var both := withoutU - {t};
      assert both == withoutT - {u};
      calc {
        TotalCount(stats);
        stats[u].count + TotalCount(withoutU);
        stats[u].count + (stats[t].count + TotalCount(both));
        stats[t].count + (stats[u].count + TotalCount(both));
        stats[t].count + TotalCount(withoutT);
      }
    }
  }

  /** No result is lost or counted twice: the counts of all the buckets add
      up to the number of results. */
  lemma {:induction false} TallyCountsAll(rs: seq<RequestResult>)
    ensures TotalCount(Tally(rs)) == |rs|
  {
    if rs != [] {
      var init := rs[..|rs| - 1];
      var r := rs[|rs| - 1];
      var stats := Tally(init);
      var b := if r.opType in stats then stats[r.opType] else EmptyBucket;
      var stats' := stats[r.opType := Record(b, r)];
      TallyCountsAll(init);
      TotalCountRemove(stats', r.opType);
      assert stats' - {r.opType} == stats - {r.opType};
      if r.opType in stats {
        TotalCountRemove(stats, r.opType);
      } else {
        assert stats - {r.opType} == stats;
      }
    }
  }

  // ---------------------------------------------------------------------
  // Latency summary

  predicate IsSorted(xs: seq<int>) {
    forall i, j :: 0 <= i <= j < |xs| ==> xs[i] <= xs[j]
  }

  function Insert(x: int, xs: seq<int>): (r: seq<int>)
    requires IsSorted(xs)
    ensures IsSorted(r) && multiset(r) == multiset(xs) + multiset{x}
  {
    if xs == [] || x <= xs[0] then
      ConsSorted(x, xs);
      [x] + xs
    else
      var rest := Insert(x, xs[1..]);
      InsertBelowHead(x, xs, rest);
      [xs[0]] + rest
  }

  /** A head no larger than every element of a sorted tail keeps the list
      sorted. */
  lemma ConsSorted(h: int, xs: seq<int>)
    requires IsSorted(xs) && (xs == [] || h <= xs[0])
    ensures IsSorted([h] + xs)
  {
    var r := [h] + xs;
    forall i, j | 0 <= i <= j < |r|
      ensures r[i] <= r[j]
    {
      if 0 < i {
        assert r[i] == xs[i - 1] && r[j] == xs[j - 1];
      } else if 0 < j {
        assert r[j] == xs[j - 1];
      }
    }
  }

  /** The step of `Insert` past the head: inserting into the tail and
      putting the head back in front. */
  lemma InsertBelowHead(x: int, xs: seq<int>, rest: seq<int>)
    requires IsSorted(xs) && xs != [] && xs[0] < x
    requires IsSorted(rest) && multiset(rest) == multiset(xs[1..]) + multiset{x}
    ensures IsSorted([xs[0]] + rest) && multiset([xs[0]] + rest) == multiset(xs) + multiset{x}
  {
    assert xs == [xs[0]] + xs[1..];
    assert forall k :: 0 <= k < |xs[1..]| ==> xs[0] <= xs[1..][k];
    LowerBoundKept(xs[0], x, xs[1..], rest);
    ConsSorted(xs[0], rest);
  }

  /** A lower bound of `xs` and of `x` bounds every element of a list with
      the elements of `xs` and `x`. */
  lemma LowerBoundKept(b: int, x: int, xs: seq<int>, r: seq<int>)
    requires b <= x && forall k :: 0 <= k < |xs| ==> b <= xs[k]
    requires multiset(r) == multiset(xs) + multiset{x}
    ensures forall k :: 0 <= k < |r| ==> b <= r[k]
  {
    forall k | 0 <= k < |r|
      ensures b <= r[k]
    {
      assert r[k] in multiset(r);
      if r[k] != x {
        assert r[k] in multiset(xs);
        assert r[k] in xs;
      }
    }
  }

  /** Python's `sorted` on the latencies: ascending, the same multiset. */
  function SortAscending(xs: seq<int>): (r: seq<int>)
    ensures IsSorted(r) && multiset(r) == multiset(xs)
  {
    if xs == [] then []
    else
      assert xs == [xs[0]] + xs[1..];
      Insert(xs[0], SortAscending(xs[1..]))
  }

  /** Python's `min` over a non-empty list. */
  function MinOf(xs: seq<int>): (m: int)
    requires xs != []
    ensures m in xs && forall k :: 0 <= k < |xs| ==> m <= xs[k]
  {
    if |xs| == 1 then xs[0]
    else
      var m := MinOf(xs[1..]);
      assert forall k :: 1 <= k < |xs| ==> xs[k] == xs[1..][k - 1];
      if xs[0] <= m then xs[0] else m
  }

  /** Python's `max` over a non-empty list. */
  function MaxOf(xs: seq<int>): (m: int)
    requires xs != []
    ensures m in xs && forall k :: 0 <= k < |xs| ==> xs[k] <= m
  {
    if |xs| == 1 then xs[0]
    else
      var m := MaxOf(xs[1..]);
      assert forall k :: 1 <= k < |xs| ==> xs[k] == xs[1..][k - 1];
      if xs[0] >= m then xs[0] else m
  }

  /** `int(n * q / 100)`: the rank that the percentile `q` selects in a sorted
      list of `n` latencies, written in integer arithmetic. For `q < 100`
      it is a valid index of any non-empty list. */
  function PercentileIndex(n: nat, q: nat): (k: nat)
    requires q < 100
    ensures n > 0 ==> k < n
  {
    assert n * q <= n * 99 by { MulMonotone(n, q, 99); }
    n * q / 100
  }

  lemma MulMonotone(n: nat, a: nat, b: nat)
    requires a <= b
    ensures n * a <= n * b
  {
  }

  /** A higher percentile never selects a lower rank. */
  lemma PercentileIndexMonotone(n: nat, q1: nat, q2: nat)
    requires q1 <= q2 < 100
    ensures PercentileIndex(n, q1) <= PercentileIndex(n, q2)
  {
    var x, y := n * q1, n * q2;
    assert x <= y by { MulMonotone(n, q1, q2); }
    assert x / 100 <= y / 100;
  }

  /** What lines 176-193 print for a bucket with latency data. */
  datatype LatencySummary = LatencySummary(avg: real, min: int, max: int,
                                           p50: int, p90: int, p95: int, p99: int)

  /** The summary of a bucket, or `None` for the "no latency data" branch.
      The average divides by a count that is then never zero and is the
      mean of the recorded latencies; the minimum and the maximum bound
      every latency and are recorded ones; each percentile is the latency
      of the rank `PercentileIndex` selects, and they are ordered between
      the minimum and the maximum. */
  function Summarize(b: Bucket): (r: Option<LatencySummary>)
    requires WellFormed(b)
    ensures r.None? <==> b.latencies == []
    ensures r.Some? ==> var s, xs := r.value, b.latencies;
              && s.avg == Sum(xs) as real / |xs| as real
              && s.min in xs && s.max in xs
              && (forall k :: 0 <= k < |xs| ==> s.min <= xs[k] <= s.max)
              && HasRank(xs, s.p50, PercentileIndex(|xs|, 50))
              && HasRank(xs, s.p90, PercentileIndex(|xs|, 90))
              && HasRank(xs, s.p95, PercentileIndex(|xs|, 95))
              && HasRank(xs, s.p99, PercentileIndex(|xs|, 99))
              && s.min <= s.p50 <= s.p90 <= s.p95 <= s.p99 <= s.max
              && s.min as real <= s.avg <= s.max as real
  {
    if b.latencies == [] then None
    else
      var n := |b.latencies|;
      var sorted := SortAscending(b.latencies);
      assert |sorted| == n by { assert |multiset(sorted)| == |multiset(b.latencies)|; }
      var lo, hi := MinOf(b.latencies), MaxOf(b.latencies);
      var i50, i90 := PercentileIndex(n, 50), PercentileIndex(n, 90);
      var i95, i99 := PercentileIndex(n, 95), PercentileIndex(n, 99);
      PercentileIndexMonotone(n, 50, 90);
      PercentileIndexMonotone(n, 90, 95);
      PercentileIndexMonotone(n, 95, 99);
      SortedWithinBounds(b.latencies, sorted, i50);
      SortedWithinBounds(b.latencies, sorted, i99);
      SortedWithinBounds(b.latencies, sorted, i90);
      SortedWithinBounds(b.latencies, sorted, i95);
      SortedHasRank(b.latencies, sorted, i50);
      SortedHasRank(b.latencies, sorted, i90);
      SortedHasRank(b.latencies, sorted, i95);
      SortedHasRank(b.latencies, sorted, i99);
      SumBounds(b.latencies, lo, hi);
      AverageBounds(b.totalLatency, n, lo, hi);
      Some(LatencySummary(b.totalLatency as real / b.count as real, lo, hi,
                          sorted[i50], sorted[i90], sorted[i95], sorted[i99]))
  }

  /** How many of `xs` lie below `v`, or at or below it when `inclusive`. */
  function CountBelow(xs: seq<int>, v: int, inclusive: bool): (c: nat)
    ensures c <= |xs|
  {
    if |xs| == 0 then 0
    else
      var x := xs[|xs| - 1];
      CountBelow(xs[..|xs| - 1], v, inclusive) + Counted(x, v, inclusive)
  }

  /** `v` is the latency of rank `k` (counting from 0) in `xs`: a recorded
      one, with at most `k` latencies below it and more than `k` at or
      below it. */
  predicate HasRank(xs: seq<int>, v: int, k: nat) {
    v in xs && CountBelow(xs, v, false) <= k < CountBelow(xs, v, true)
  }

  /** A rank names at most one latency. */
  lemma HasRankUnique(xs: seq<int>, v: int, w: int, k: nat)
    requires HasRank(xs, v, k) && HasRank(xs, w, k)
    ensures v == w
  {
    if v < w {
      CountBelowMonotone(xs, v, w);
    } else if w < v {
      CountBelowMonotone(xs, w, v);
    }
  }

  /** Everything at or below `v` is below a larger `w`. */
  lemma {:induction false} CountBelowMonotone(xs: seq<int>, v: int, w: int)
    requires v < w
    ensures CountBelow(xs, v, true) <= CountBelow(xs, w, false)
  {
    if |xs| > 0 {
      CountBelowMonotone(xs[..|xs| - 1], v, w);
    }
  }

  lemma {:induction false} CountBelowAppend(a: seq<int>, b: seq<int>, v: int, inclusive: bool)
    ensures CountBelow(a + b, v, inclusive) == CountBelow(a, v, inclusive) + CountBelow(b, v, inclusive)
    decreases |b|
  {
    if |b| == 0 {
      assert a + b == a;
    } else {
      assert (a + b)[..|a + b| - 1] == a + b[..|b| - 1];
      CountBelowAppend(a, b[..|b| - 1], v, inclusive);
    }
  }

  /** Whether `x` is counted: below `v`, or equal to it when `inclusive`. */
  function Counted(x: int, v: int, inclusive: bool): nat {
    if x < v || (inclusive && x == v) then 1 else 0
  }

  /** The count depends only on the multiset of the latencies. */
  lemma {:induction false} CountBelowPermutation(a: seq<int>, b: seq<int>, v: int, inclusive: bool)
    requires multiset(a) == multiset(b)
    ensures CountBelow(a, v, inclusive) == CountBelow(b, v, inclusive)
    decreases |a|
  {
    if |a| == 0 {
      assert |b| == |multiset(b)| == 0;
    } else {
      var init, x := a[..|a| - 1], a[|a| - 1];
      assert a == init + [x];
      assert x in multiset(b);
      var j :| 0 <= j < |b| && b[j] == x;
      var rest := b[..j] + b[j + 1..];
      RemoveAtMultiset(b, j);
      assert multiset(a) == multiset(init) + multiset{x};
      CountBelowPermutation(init, rest, v, inclusive);
      CountBelowRemoveAt(b, j, v, inclusive);
    }
  }

  /** Dropping entry `j` removes one copy of it from the multiset. */
  lemma RemoveAtMultiset(b: seq<int>, j: nat)
    requires j < |b|
    ensures multiset(b[..j] + b[j + 1..]) == multiset(b) - multiset{b[j]}
  {
    assert b == b[..j] + [b[j]] + b[j + 1..];
  }

  /** Dropping entry `j` lowers the count by whether it was counted. */
  lemma CountBelowRemoveAt(b: seq<int>, j: nat, v: int, inclusive: bool)
    requires j < |b|
    ensures CountBelow(b, v, inclusive) ==
              CountBelow(b[..j] + b[j + 1..], v, inclusive) + Counted(b[j], v, inclusive)
  {
    var front, x, back := b[..j], b[j], b[j + 1..];
    assert b == (front + [x]) + back;
    CountBelowAppend(front + [x], back, v, inclusive);
    CountBelowAppend(front, [x], v, inclusive);
    CountBelowAppend(front, back, v, inclusive);
    assert [x][..0] == [];
  }

  /** With every element at least `v`, none is below it; with every
      element at most `v`, all are at or below it. */
  lemma {:induction false} CountBelowExtremes(xs: seq<int>, v: int)
    ensures (forall k :: 0 <= k < |xs| ==> v <= xs[k]) ==> CountBelow(xs, v, false) == 0
    ensures (forall k :: 0 <= k < |xs| ==> xs[k] <= v) ==> CountBelow(xs, v, true) == |xs|
  {
    if |xs| > 0 {
      CountBelowExtremes(xs[..|xs| - 1], v);
    }
  }

  /** Entry `k` of a sorted copy of `xs` has rank `k` in `xs`. */
  lemma SortedHasRank(xs: seq<int>, sorted: seq<int>, k: nat)
    requires IsSorted(sorted) && multiset(sorted) == multiset(xs) && k < |sorted|
    ensures HasRank(xs, sorted[k], k)
  {
    var v := sorted[k];
    assert v in multiset(sorted);
    assert v in xs by { assert v in multiset(xs); }
    CountBelowPermutation(xs, sorted, v, false);
    CountBelowPermutation(xs, sorted, v, true);
    SortedBelow(sorted, k);
    SortedAtOrBelow(sorted, k);
  }

  /** At most `k` entries of a sorted sequence lie below entry `k`. */
  lemma SortedBelow(sorted: seq<int>, k: nat)
    requires IsSorted(sorted) && k < |sorted|
    ensures CountBelow(sorted, sorted[k], false) <= k
  {
    var lower, upper := sorted[..k], sorted[k..];
    assert sorted == lower + upper;
    CountBelowAppend(lower, upper, sorted[k], false);
    CountBelowExtremes(upper, sorted[k]);
  }

  /** More than `k` entries of a sorted sequence lie at or below entry `k`. */
  lemma SortedAtOrBelow(sorted: seq<int>, k: nat)
    requires IsSorted(sorted) && k < |sorted|
    ensures k < CountBelow(sorted, sorted[k], true)
  {
    var upTo, above := sorted[..k + 1], sorted[k + 1..];
    assert sorted == upTo + above;
    CountBelowAppend(upTo, above, sorted[k], true);
    CountBelowExtremes(upTo, sorted[k]);
  }

  /** An element of the sorted copy is a latency, hence between the
      minimum and the maximum. */
  lemma SortedWithinBounds(xs: seq<int>, sorted: seq<int>, k: nat)
    requires xs != [] && multiset(sorted) == multiset(xs) && k < |sorted|
    ensures sorted[k] in xs && MinOf(xs) <= sorted[k] <= MaxOf(xs)
  {
    assert sorted[k] in multiset(sorted);
    var j :| 0 <= j < |xs| && xs[j] == sorted[k];
  }

  lemma {:induction false} SumBounds(xs: seq<int>, lo: int, hi: int)
    requires forall k :: 0 <= k < |xs| ==> lo <= xs[k] <= hi
    ensures |xs| * lo <= Sum(xs) <= |xs| * hi
  {
    if xs != [] {
      SumBounds(xs[..|xs| - 1], lo, hi);
    }
  }

  lemma AverageBounds(total: int, n: nat, lo: int, hi: int)
    requires n > 0 && n * lo <= total <= n * hi
    ensures lo as real <= total as real / n as real <= hi as real
  {
    assert (n * lo) as real == n as real * lo as real;
    assert (n * hi) as real == n as real * hi as real;
  }

  /** The scenario where every request of a type got a 409: no success,
      every request an error, and every one of them a conflict. */
  lemma AllConflicts(rs: seq<RequestResult>, t: string)
    requires t in Tally(rs)
    requires forall k :: 0 <= k < |rs| ==> rs[k].status == Http(409)
    ensures Tally(rs)[t].success == 0
    ensures Tally(rs)[t].errors == Tally(rs)[t].count
    ensures Tally(rs)[t].conflicts == Some(Tally(rs)[t].count)
  {
    var xs := OfType(rs, t);
    TallyIsBucketOf(rs, t);
    OnlyConflicts(rs, t);
  }

  lemma {:induction false} OnlyConflicts(rs: seq<RequestResult>, t: string)
    requires forall k :: 0 <= k < |rs| ==> rs[k].status == Http(409)
    ensures SuccessCount(OfType(rs, t)) == 0
    ensures ConflictCount(OfType(rs, t)) == |OfType(rs, t)|
  {
    if rs != [] {
      var init := rs[..|rs| - 1];
      OnlyConflicts(init, t);
      var xs := OfType(init, t);
      var r := rs[|rs| - 1];
      if r.opType == t {
        var ys := xs + [r];
        assert OfType(rs, t) == ys;
        assert ys[..|ys| - 1] == xs;
        assert SuccessCount(ys) == SuccessCount(xs);
        assert ConflictCount(ys) == ConflictCount(xs) + 1;
      } else {
        assert OfType(rs, t) == xs + [];
        assert OfType(rs, t) == xs;
      }
    }
  }

  /** Every bucket of the loop has at least one latency, so the summary
      always exists: the "no latency data" branch is never taken. */
  lemma EveryBucketSummarized(rs: seq<RequestResult>, t: string)
    requires t in Tally(rs)
    ensures WellFormed(Tally(rs)[t]) && Summarize(Tally(rs)[t]).Some?
  {
    TallyBuckets(rs, t);
  }
}
