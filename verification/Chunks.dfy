/** How a threaded job's entities are cut into chunks, in the machine's 64-bit arithmetic. */
module Chunks {
  import opened Counting

  const WORD: nat := 0x1_0000_0000_0000_0000
  const INDEX_LIMIT: nat := 0x1_0000_0000

  function Min(a: nat, b: nat): nat { if b < a then b else a }

  /** Wanted threads; the sum may wrap for a huge minimum. */
  function DesiredThreads(count: nat, minimum: nat): nat
    requires minimum > 0
  {
    Max(1, (count + minimum - 1) % WORD / minimum)
  }

  function ThreadCount(count: nat, minimum: nat, maxThreads: nat): nat
    requires minimum > 0
  {
    Min(maxThreads, DesiredThreads(count, minimum))
  }

  function Begin(count: nat, threads: nat, t: nat): nat
    requires threads > 0
  {
    count * t % WORD / threads
  }

  lemma DivideBounds(a: nat, d: nat)
    requires d > 0
    ensures a / d * d <= a < a / d * d + d
  {
  }

  lemma QuotientIs(a: nat, d: nat, q: nat)
    requires d > 0 && q * d <= a < q * d + d
    ensures a / d == q
  {
    var r := a / d;
    DivideBounds(a, d);
    if r < q { Times(r + 1, q, d); } else if r > q { Times(q + 1, r, d); }
  }

  /** Wrap or not, the thread count wanted is the ceiling of count over minimum. */
  lemma DesiredIsTheCeiling(count: nat, minimum: nat)
    requires 0 < count < INDEX_LIMIT && 0 < minimum < WORD
    ensures var d := DesiredThreads(count, minimum);
            1 <= d <= count && (d - 1) * minimum < count <= d * minimum
  {
    var total := count + minimum - 1;
    if total < WORD {
      DivideBounds(total, minimum);
      var d := total / minimum;
      assert total % WORD == total;
      if d == 0 { assert false; }
      if d > count { Times(count + 1, d, minimum); Grow(count, minimum); }
      assert (d - 1) * minimum == d * minimum - minimum;
    } else {
      assert total % WORD == total - WORD;
      QuotientIs(total - WORD, minimum, 0);
    }
  }

  lemma Grow(count: nat, minimum: nat)
    requires minimum > 0 && count > 0
    ensures (count + 1) * minimum > count + minimum - 1
  {
    Times(1, minimum, count);
  }

  /** No product of a 32-bit count and a thread index leaves 64 bits. */
  lemma ProductsFit(count: nat, threads: nat, t: nat)
    requires 0 < count < INDEX_LIMIT && 0 < threads <= count && t <= threads
    ensures count * t < WORD && Begin(count, threads, t) == count * t / threads
  {
    Times(t, INDEX_LIMIT, count);
    Times(count, INDEX_LIMIT - 1, INDEX_LIMIT);
    assert count * t <= (INDEX_LIMIT - 1) * INDEX_LIMIT;
  }

  /** The average chunk, rounded down. */
  function Low(count: nat, threads: nat): nat
    requires threads > 0
  {
    count / threads
  }

  /** One chunk: not empty, and as long as the average rounded down or up. */
  lemma ChunkSize(count: nat, threads: nat, t: nat)
    requires 0 < count < INDEX_LIMIT && 0 < threads <= count && t < threads
    ensures var size, low := Begin(count, threads, t + 1) - Begin(count, threads, t), Low(count, threads);
            1 <= size && low <= size <= low + (if count == low * threads then 0 else 1)
  {
    ProductsFit(count, threads, t);
    ProductsFit(count, threads, t + 1);
    assert count * (t + 1) == count * t + count;
    DivideBounds(count * t, threads);
    DivideBounds(count * t + count, threads);
    DivideBounds(count, threads);
    SplitQuotient(count * t, count, threads, count * t / threads, Low(count, threads), (count * t + count) / threads);
    QuotientAtLeastOne(count, threads);
  }

  lemma QuotientAtLeastOne(count: nat, threads: nat)
    requires 0 < threads <= count
    ensures count / threads >= 1
  {
    DivideBounds(count, threads);
  }

  lemma Distribute(a: nat, b: nat, d: nat)
    ensures (a + b) * d == a * d + b * d
  {
  }

  predicate Quotient(a: nat, d: nat, q: nat) { q * d <= a < q * d + d }

  /** Adding b before dividing by d adds b / d, rounded down or up. */
  lemma SplitQuotient(a: nat, b: nat, d: nat, qa: nat, qb: nat, q: nat)
    requires d > 0 && Quotient(a, d, qa) && Quotient(b, d, qb) && Quotient(a + b, d, q)
    ensures qb <= q - qa <= qb + (if b == qb * d then 0 else 1)
  {
    Distribute(qa, qb, d);
    Distribute(qa + qb, 1, d);
    Distribute(q, 1, d);
    Distribute(qa + qb, 2, d);
    if q < qa + qb { Times(q + 1, qa + qb, d); }
    if q > qa + qb + 1 { Times(qa + qb + 2, q, d); }
    assert q == qa + qb + 1 ==> q * d == qa * d + qb * d + d;
  }

  lemma ChunkEnds(count: nat, threads: nat)
    requires 0 < count < INDEX_LIMIT && 0 < threads <= count
    ensures Begin(count, threads, 0) == 0 && Begin(count, threads, threads) == count
  {
    ProductsFit(count, threads, threads);
    QuotientIs(count * threads, threads, count);
  }

  /** When the thread maximum does not bind, no chunk exceeds the minimum asked for. */
  lemma ChunksWithinMinimum(count: nat, minimum: nat, maxThreads: nat, t: nat)
    requires 0 < count < INDEX_LIMIT && 0 < minimum < WORD && DesiredThreads(count, minimum) <= maxThreads
    requires t < ThreadCount(count, minimum, maxThreads)
    ensures var n := ThreadCount(count, minimum, maxThreads);
            Begin(count, n, t + 1) - Begin(count, n, t) <= minimum
  {
    DesiredIsTheCeiling(count, minimum);
    var n := ThreadCount(count, minimum, maxThreads);
    ChunkSize(count, n, t);
    DivideBounds(count, n);
    LowWithin(count, n, Low(count, n), minimum);
  }

  lemma LowWithin(count: nat, n: nat, low: nat, minimum: nat)
    requires n > 0 && low * n <= count <= n * minimum
    ensures low + (if count == low * n then 0 else 1) <= minimum
  {
    if low >= minimum {
      Times(minimum, low, n);
      if low > minimum { Times(minimum + 1, low, n); }
    }
  }

  /** Every chunk reaches the minimum asked for. */
  ghost predicate NoneBelow(count: nat, threads: nat, minimum: nat)
    requires threads > 0
  {
    forall t :: 0 <= t < threads ==> Begin(count, threads, t + 1) - Begin(count, threads, t) >= minimum
  }

  /** The minimum is no lower bound in general. It is one exactly when the thread maximum binds or
      the minimum divides the count. */
  lemma ChunksReachMinimum(count: nat, minimum: nat, maxThreads: nat)
    requires 0 < count < INDEX_LIMIT && 0 < minimum < WORD && maxThreads > 1
    ensures ThreadCount(count, minimum, maxThreads) > 0
    ensures NoneBelow(count, ThreadCount(count, minimum, maxThreads), minimum)
            <==> maxThreads * minimum < count || count % minimum == 0
  {
    hide DesiredThreads, Begin, Low;
    ThreadsAreLeast(count, minimum, maxThreads);
    DesiredIsTheCeiling(count, minimum);
    var n := ThreadCount(count, minimum, maxThreads);
    AverageDecides(count, n, minimum);
    if maxThreads < DesiredThreads(count, minimum) {
      Times(n, DesiredThreads(count, minimum) - 1, minimum);
    } else {
      DivisibleMeans(count, n, minimum);
    }
  }

  /** The shortest chunk is the first one: the average, rounded down. */
  lemma AverageDecides(count: nat, n: nat, minimum: nat)
    requires 0 < count < INDEX_LIMIT && 0 < n <= count
    ensures NoneBelow(count, n, minimum) <==> n * minimum <= count
  {
    hide Begin, Low;
    FirstChunk(count, n);
    if n * minimum <= count {
      LowAtLeast(count, n, minimum);
      forall t | 0 <= t < n ensures Begin(count, n, t + 1) - Begin(count, n, t) >= minimum { ChunkLength(count, n, t); }
    } else if Low(count, n) >= minimum {
      LowAtLeast(count, n, minimum);
    } else {
      assert Begin(count, n, 0 + 1) - Begin(count, n, 0) < minimum;
    }
  }

  lemma FirstChunk(count: nat, n: nat)
    requires 0 < count < INDEX_LIMIT && 0 < n <= count
    ensures Begin(count, n, 1) - Begin(count, n, 0) == Low(count, n)
  {
    ChunkEnds(count, n);
    ProductsFit(count, n, 1);
  }

  lemma LowAtLeast(count: nat, n: nat, minimum: nat)
    requires n > 0
    ensures Low(count, n) >= minimum <==> n * minimum <= count
  {
    DivideBounds(count, n);
    if Low(count, n) >= minimum { Times(minimum, Low(count, n), n); } else { Times(Low(count, n) + 1, minimum, n); }
  }

  lemma DivisibleMeans(count: nat, d: nat, minimum: nat)
    requires minimum > 0 && d > 0 && (d - 1) * minimum < count <= d * minimum
    ensures d * minimum <= count <==> count % minimum == 0
  {
    DivideBounds(count, minimum);
    var q := count / minimum;
    if count % minimum == 0 {
      if q < d { Times(q, d - 1, minimum); } else { Times(d, q, minimum); }
    } else if d * minimum == count {
      QuotientIs(count, minimum, d);
    }
  }

  /** One failing instance: five rows, at least two each, three threads. */
  lemma ChunkBelowMinimum()
    ensures ThreadCount(5, 2, 3) == 3 && Begin(5, 3, 1) - Begin(5, 3, 0) == 1 && !NoneBelow(5, 3, 2)
  {
    assert Begin(5, 3, 0 + 1) - Begin(5, 3, 0) == 1;
  }

  datatype Range = Range(begin: nat, end: nat)

  /** Chunks follow one another without gap or overlap, from position 0 to the last. */
  ghost predicate Partition(ranges: seq<Range>, count: nat) {
    && ranges != [] && ranges[0].begin == 0 && ranges[|ranges| - 1].end == count
    && (forall k :: 0 <= k < |ranges| ==> ranges[k].begin < ranges[k].end)
    && (forall k :: 0 < k < |ranges| ==> ranges[k].begin == ranges[k - 1].end)
  }

  /** Chunk sizes differ by at most one. */
  ghost predicate Balanced(ranges: seq<Range>) {
    forall j, k :: 0 <= j < |ranges| && 0 <= k < |ranges| ==>
      ranges[j].end - ranges[j].begin <= ranges[k].end - ranges[k].begin + 1
  }

  ghost predicate NoLonger(ranges: seq<Range>, most: nat) {
    forall k :: 0 <= k < |ranges| ==> ranges[k].end - ranges[k].begin <= most
  }

  ghost predicate NoShorter(ranges: seq<Range>, least: nat) {
    forall k :: 0 <= k < |ranges| ==> ranges[k].end - ranges[k].begin >= least
  }

  /** The thread count is the least number of chunks of at most the minimum that hold all entities,
      or the maximum when that is smaller. */
  lemma ThreadsAreLeast(count: nat, minimum: nat, maxThreads: nat)
    requires 0 < count < INDEX_LIMIT && 0 < minimum < WORD && maxThreads > 1
    ensures var n := ThreadCount(count, minimum, maxThreads);
            0 < n <= maxThreads && (n - 1) * minimum < count && (n < maxThreads ==> count <= n * minimum)
    ensures maxThreads < DesiredThreads(count, minimum) <==> maxThreads * minimum < count
  {
    DesiredIsTheCeiling(count, minimum);
    var d := DesiredThreads(count, minimum);
    if maxThreads < d { Times(maxThreads, d - 1, minimum); } else { Times(d, maxThreads, minimum); }
    if maxThreads < d { Times(maxThreads - 1, d - 1, minimum); }
  }

  /** As many chunks as threads: the maximum where it binds, otherwise no more than the minimum chunk
      length makes necessary. They cover all positions in order, and each begins at its exact share. */
  method SplitChunks(count: nat, minimum: nat, maxThreads: nat) returns (ranges: seq<Range>)
    requires 0 < count < INDEX_LIMIT && 0 < minimum < WORD && maxThreads > 1
    ensures 0 < |ranges| <= maxThreads && (|ranges| - 1) * minimum < count
    ensures |ranges| < maxThreads ==> count <= |ranges| * minimum
    ensures Partition(ranges, count) && Balanced(ranges)
    ensures forall k :: 0 <= k < |ranges| ==> ranges[k].begin == count * k / |ranges|
    ensures count <= maxThreads * minimum ==> NoLonger(ranges, minimum)
    ensures NoShorter(ranges, minimum) <==> maxThreads * minimum < count || count % minimum == 0
    ensures |ranges| == ThreadCount(count, minimum, maxThreads)
  {
    hide Begin, DesiredThreads, ThreadCount, Partition, Balanced, NoLonger, NoShorter, NoneBelow;
    ThreadsInRange(count, minimum, maxThreads);
    var threads := ThreadCount(count, minimum, maxThreads);
    ghost var bounds := Bounds(count, threads);
    ranges := [];
    for t := 0 to threads
      invariant |ranges| == t
      invariant forall k :: 0 <= k < t ==> ranges[k].begin == bounds[k]
      invariant forall k :: 0 <= k < t ==> ranges[k].end == bounds[k + 1]
    {
      ranges := ranges + [Range(Begin(count, threads, t), Begin(count, threads, t + 1))];
    }
    BoundsAscend(count, threads);
    PiecesPartition(ranges, count, bounds);
    PiecesBalanced(ranges, count);
    if DesiredThreads(count, minimum) <= maxThreads { PiecesWithin(ranges, count, minimum, maxThreads); }
    ChunksReachMinimum(count, minimum, maxThreads);
    PiecesReach(ranges, count, minimum);
    ThreadsAreLeast(count, minimum, maxThreads);
    forall k | 0 <= k < |ranges| ensures ranges[k].begin == count * k / |ranges| { ProductsFit(count, threads, k); }
  }

  lemma PiecesReach(ranges: seq<Range>, count: nat, minimum: nat)
    requires |ranges| > 0
    requires forall k :: 0 <= k < |ranges| ==> ranges[k].begin == Bounds(count, |ranges|)[k]
    requires forall k :: 0 <= k < |ranges| ==> ranges[k].end == Bounds(count, |ranges|)[k + 1]
    ensures NoShorter(ranges, minimum) <==> NoneBelow(count, |ranges|, minimum)
  {
    hide Begin, Bounds;
    var n := |ranges|;
    assert forall k :: 0 <= k < n ==> ranges[k].end - ranges[k].begin == Begin(count, n, k + 1) - Begin(count, n, k);
  }

  lemma PiecesBalanced(ranges: seq<Range>, count: nat)
    requires 0 < count < INDEX_LIMIT && 0 < |ranges| <= count
    requires forall k :: 0 <= k < |ranges| ==> ranges[k].begin == Bounds(count, |ranges|)[k]
    requires forall k :: 0 <= k < |ranges| ==> ranges[k].end == Bounds(count, |ranges|)[k + 1]
    ensures Balanced(ranges)
  {
    hide Begin, Low, Bounds;
    var low := Low(count, |ranges|);
    forall k | 0 <= k < |ranges|
      ensures low <= ranges[k].end - ranges[k].begin <= low + 1
    {
      ChunkLength(count, |ranges|, k);
    }
  }

  lemma PiecesWithin(ranges: seq<Range>, count: nat, minimum: nat, maxThreads: nat)
    requires 0 < count < INDEX_LIMIT && 0 < minimum < WORD && DesiredThreads(count, minimum) <= maxThreads
    requires 0 < |ranges| == ThreadCount(count, minimum, maxThreads)
    requires forall k :: 0 <= k < |ranges| ==> ranges[k].begin == Bounds(count, |ranges|)[k]
    requires forall k :: 0 <= k < |ranges| ==> ranges[k].end == Bounds(count, |ranges|)[k + 1]
    ensures NoLonger(ranges, minimum)
  {
    hide Begin, DesiredThreads, ThreadCount, Bounds;
    forall k | 0 <= k < |ranges| ensures ranges[k].end - ranges[k].begin <= minimum {
      ChunksWithinMinimum(count, minimum, maxThreads, k);
    }
  }

  function Bounds(count: nat, threads: nat): (r: seq<nat>)
    requires threads > 0
    ensures |r| == threads + 1 && forall k :: 0 <= k <= threads ==> r[k] == Begin(count, threads, k)
  {
    seq(threads + 1, k requires 0 <= k <= threads => Begin(count, threads, k))
  }

  lemma BoundsAscend(count: nat, threads: nat)
    requires 0 < count < INDEX_LIMIT && 0 < threads <= count
    ensures var bounds := Bounds(count, threads);
            bounds[0] == 0 && bounds[threads] == count && forall k :: 0 <= k < threads ==> bounds[k] < bounds[k + 1]
  {
    hide Begin, Low, Bounds;
    ChunkEnds(count, threads);
    forall k | 0 <= k < threads
      ensures Bounds(count, threads)[k] < Bounds(count, threads)[k + 1]
    {
      ChunkLength(count, threads, k);
    }
  }

  lemma ThreadsInRange(count: nat, minimum: nat, maxThreads: nat)
    requires 0 < count < INDEX_LIMIT && 0 < minimum < WORD && maxThreads > 1
    ensures 0 < ThreadCount(count, minimum, maxThreads) <= count
  {
    DesiredIsTheCeiling(count, minimum);
  }

  lemma ChunkLength(count: nat, threads: nat, t: nat)
    requires 0 < count < INDEX_LIMIT && 0 < threads <= count && t < threads
    ensures var size, low := Begin(count, threads, t + 1) - Begin(count, threads, t), Low(count, threads);
            1 <= size && low <= size <= low + 1
  {
    hide Begin, Low;
    ChunkSize(count, threads, t);
  }

  lemma PiecesPartition(ranges: seq<Range>, count: nat, bounds: seq<nat>)
    requires 0 < |ranges| == |bounds| - 1
    requires forall k :: 0 <= k < |ranges| ==> ranges[k].begin == bounds[k]
    requires forall k :: 0 <= k < |ranges| ==> ranges[k].end == bounds[k + 1]
    requires bounds[0] == 0 && bounds[|ranges|] == count && forall k :: 0 <= k < |ranges| ==> bounds[k] < bounds[k + 1]
    ensures Partition(ranges, count)
  {
    var last := |ranges| - 1;
    assert ranges[last].end == bounds[last + 1];
    forall k | 0 <= k < |ranges| ensures ranges[k].begin < ranges[k].end { assert bounds[k] < bounds[k + 1]; }
    forall k | 0 < k < |ranges|
      ensures ranges[k].begin == ranges[k - 1].end
    {
      assert ranges[k - 1].end == bounds[(k - 1) + 1];
    }
  }

  /** Every position lies in a chunk, and only in one. */
  lemma {:induction false} EveryPositionHasAChunk(ranges: seq<Range>, count: nat, position: nat)
    requires Partition(ranges, count) && position < count
    ensures exists k :: 0 <= k < |ranges| && ranges[k].begin <= position < ranges[k].end
    decreases |ranges|
  {
    var last := ranges[|ranges| - 1];
    if position < last.begin {
      assert |ranges| > 1;
      var front := ranges[..|ranges| - 1];
      assert Partition(front, last.begin);
      EveryPositionHasAChunk(front, last.begin, position);
      var k :| 0 <= k < |front| && front[k].begin <= position < front[k].end;
      assert ranges[k] == front[k];
    }
  }

  lemma {:induction false} ChunksAscend(ranges: seq<Range>, count: nat, j: nat, k: nat)
    requires Partition(ranges, count) && j < k < |ranges|
    ensures ranges[j].end <= ranges[k].begin
    decreases k
  {
    if j < k - 1 { ChunksAscend(ranges, count, j, k - 1); }
  }
}
