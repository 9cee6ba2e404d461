/** Summaries of timing samples and their concurrent collection, over the reals:
    the percentile, the fair split of the requests, and every interleaving of
    the observer threads. */
module Performance {
  import opened Options

  ghost predicate Ascending(a: seq<real>) {
    forall i, j :: 0 <= i < j < |a| ==> a[i] <= a[j]
  }

  // --- the percentile ---------------------------------------------------------

  /** The point at fraction `t` of the way from `x` to `y`. */
  function Blend(t: real, x: real, y: real): real {
    x + t * (y - x)
  }

  /** The value at a fractional rank: linear between the two samples beside it. */
  function AtRank(a: seq<real>, rank: real): real
    requires a != [] && 0.0 <= rank <= (|a| - 1) as real
  {
    var low := rank.Floor;
    var high := if low + 1 < |a| - 1 then low + 1 else |a| - 1;
    Blend(rank - low as real, a[low], a[high])
  }

  lemma Product(x: real, y: real)
    requires x >= 0.0 && y >= 0.0
    ensures x * y >= 0.0
  {
  }

  function Rank(q: real, n: nat): (rank: real)
    requires 0.0 <= q <= 1.0 && n > 0
    ensures 0.0 <= rank <= (n - 1) as real
  {
    Product(q, (n - 1) as real);
    Product(1.0 - q, (n - 1) as real);
    q * (n - 1) as real
  }

  lemma RankMonotone(q: real, p: real, n: nat)
    requires 0.0 <= q <= p <= 1.0 && n > 0
    ensures Rank(q, n) <= Rank(p, n)
  {
    Product(p - q, (n - 1) as real);
  }

  function Percentile(a: seq<real>, q: real): Option<real>
    requires 0.0 <= q <= 1.0
  {
    if a == [] then None
    else if |a| == 1 then Some(a[0])
    else Some(AtRank(a, Rank(q, |a|)))
  }

  lemma BlendMonotone(t: real, u: real, x: real, y: real)
    requires t <= u && x <= y
    ensures Blend(t, x, y) <= Blend(u, x, y)
  {
    Product(u - t, y - x);
  }

  lemma BlendEnds(x: real, y: real)
    ensures Blend(0.0, x, y) == x && Blend(1.0, x, y) == y
  {
  }

  /** Between two neighbours the value is the straight line through them, both
      ends included, so the whole curve is the polygon through the samples. */
  lemma AtRankIsPolygon(a: seq<real>, k: nat, t: real)
    requires k + 1 < |a| && 0.0 <= t <= 1.0
    ensures AtRank(a, k as real + t) == a[k] + t * (a[k + 1] - a[k])
  {
    var rank := k as real + t;
    if t < 1.0 {
      assert rank.Floor == k && rank - k as real == t;
      assert AtRank(a, rank) == Blend(t, a[k], a[k + 1]);
    } else {
      assert rank.Floor == k + 1 && rank - (k + 1) as real == 0.0;
      assert AtRank(a, rank) == Blend(0.0, a[k + 1], a[if k + 2 < |a| - 1 then k + 2 else |a| - 1]);
      BlendEnds(a[k], a[k + 1]);
    }
  }

  /** A rank lies on the segment that starts at its floor. */
  lemma AtRankBetween(a: seq<real>, rank: real)
    requires Ascending(a) && a != [] && 0.0 <= rank <= (|a| - 1) as real
    ensures a[rank.Floor] <= AtRank(a, rank)
    ensures rank.Floor + 1 < |a| ==> AtRank(a, rank) <= a[rank.Floor + 1]
    ensures a[0] <= AtRank(a, rank) <= a[|a| - 1]
    ensures rank == rank.Floor as real ==> AtRank(a, rank) == a[rank.Floor]
  {
    hide Blend;
    var low := rank.Floor;
    var high := if low + 1 < |a| - 1 then low + 1 else |a| - 1;
    assert low as real <= rank < (low + 1) as real;
    BlendEnds(a[low], a[high]);
    BlendMonotone(0.0, rank - low as real, a[low], a[high]);
    BlendMonotone(rank - low as real, 1.0, a[low], a[high]);
  }

  lemma AtRankMonotone(a: seq<real>, r: real, s: real)
    requires Ascending(a) && a != [] && 0.0 <= r <= s <= (|a| - 1) as real
    ensures AtRank(a, r) <= AtRank(a, s)
  {
    hide Blend;
    AtRankBetween(a, r);
    AtRankBetween(a, s);
    var low := r.Floor;
    if low == s.Floor {
      var high := if low + 1 < |a| - 1 then low + 1 else |a| - 1;
      BlendMonotone(r - low as real, s - low as real, a[low], a[high]);
    } else {
      assert a[low + 1] <= a[s.Floor];
    }
  }

  /** On every sorted sample the percentile stays within it, reaches both ends
      and never falls as q grows. */
  lemma PercentileIsQuantile(a: seq<real>, q: real, p: real)
    requires Ascending(a) && a != [] && 0.0 <= q <= p <= 1.0
    ensures Percentile(a, q).Some? && Percentile(a, p).Some?
    ensures a[0] <= Percentile(a, q).value <= Percentile(a, p).value <= a[|a| - 1]
  {
    hide AtRank, Rank, Ascending;
    if |a| > 1 {
      RankMonotone(q, p, |a|);
      AtRankMonotone(a, Rank(q, |a|), Rank(p, |a|));
      AtRankBetween(a, Rank(q, |a|));
      AtRankBetween(a, Rank(p, |a|));
    }
  }

  /** It passes through every sample at that sample's own rank, so it is the
      minimum at 0 and the maximum at 1. */
  lemma PercentileAtSample(a: seq<real>, k: nat, q: real)
    requires Ascending(a) && k < |a| && 0.0 <= q <= 1.0
    requires q * (|a| - 1) as real == k as real
    ensures Percentile(a, q) == Some(a[k])
  {
    hide AtRank;
    if |a| > 1 {
      assert (k as real).Floor == k;
      AtRankBetween(a, k as real);
    }
  }

  // --- the summary ------------------------------------------------------------

  function Insert(x: real, a: seq<real>): seq<real> {
    if a == [] || x <= a[0] then [x] + a else [a[0]] + Insert(x, a[1..])
  }

  /** The library sort, by insertion. */
  function Sort(samples: seq<real>): (r: seq<real>) {
    if samples == [] then [] else Insert(samples[0], Sort(samples[1..]))
  }

  lemma {:induction false} InsertKeeps(x: real, a: seq<real>)
    ensures multiset(Insert(x, a)) == multiset{x} + multiset(a)
  {
    if !(a == [] || x <= a[0]) {
      InsertKeeps(x, a[1..]);
      assert a == [a[0]] + a[1..];
    }
  }

  lemma {:induction false} InsertSorted(x: real, a: seq<real>)
    requires Ascending(a)
    ensures Ascending(Insert(x, a))
  {
    if !(a == [] || x <= a[0]) {
      InsertSorted(x, a[1..]);
      var rest := Insert(x, a[1..]);
      forall i | 0 <= i < |rest|
        ensures a[0] <= rest[i]
      {
        InsertKeeps(x, a[1..]);
        assert rest[i] in multiset(rest);
      }
    }
  }

  lemma {:induction false} SortSorts(samples: seq<real>)
    ensures Ascending(Sort(samples)) && multiset(Sort(samples)) == multiset(samples)
    ensures |Sort(samples)| == |samples|
  {
    if samples != [] {
      SortSorts(samples[1..]);
      InsertSorted(samples[0], Sort(samples[1..]));
      InsertKeeps(samples[0], Sort(samples[1..]));
      assert samples == [samples[0]] + samples[1..];
    }
    assert |multiset(Sort(samples))| == |multiset(samples)|;
  }

  /** A multiset has one ascending listing. */
  lemma {:induction false} AscendingUnique(a: seq<real>, b: seq<real>)
    requires Ascending(a) && Ascending(b) && multiset(a) == multiset(b)
    ensures a == b
  {
    assert |a| == |multiset(a)| == |multiset(b)| == |b|;
    if a != [] {
      assert a[0] in multiset(b) && b[0] in multiset(a);
      assert a[0] == b[0];
      TailMultiset(a);
      TailMultiset(b);
      AscendingUnique(a[1..], b[1..]);
    }
  }

  lemma TailMultiset(a: seq<real>)
    requires a != []
    ensures a == [a[0]] + a[1..] && multiset(a[1..]) == multiset(a) - multiset{a[0]}
  {
    assert a == [a[0]] + a[1..];
  }

  datatype Summary = Summary(p50: real, p95: real, max: real, count: nat)

  function Summarize(samples: seq<real>): Option<Summary> {
    var ordered := Sort(samples);
    if samples == [] || ordered == [] then None
    else
      var p50 :- Percentile(ordered, 0.50);
      var p95 :- Percentile(ordered, 0.95);
      Some(Summary(p50, p95, ordered[|ordered| - 1], |ordered|))
  }

  lemma SortMembers(samples: seq<real>)
    ensures |Sort(samples)| == |samples| && forall x :: x in Sort(samples) <==> x in samples
  {
    SortSorts(samples);
    forall x ensures x in Sort(samples) <==> x in samples {
      assert x in multiset(Sort(samples)) <==> x in multiset(samples);
    }
  }

  lemma LastIsLargest(a: seq<real>)
    requires Ascending(a) && a != []
    ensures a[0] in a && a[|a| - 1] in a && forall x | x in a :: x <= a[|a| - 1]
  {
  }

  /** A summary exists exactly for a non-empty sample; it is ordered, its maximum
      is the largest sample, and it counts every sample. */
  lemma SummaryOrdered(samples: seq<real>)
    ensures Summarize(samples).Some? <==> samples != []
    ensures samples != [] ==>
              var s := Summarize(samples).value;
              && s.p50 <= s.p95 <= s.max && s.count == |samples|
              && s.max in samples
              && (forall x | x in samples :: x <= s.max)
              && (exists x | x in samples :: x <= s.p50)
  {
    SortMembers(samples);
    SortSorts(samples);
    hide Sort, Percentile, Ascending;
    if samples != [] {
      var a := Sort(samples);
      PercentileIsQuantile(a, 0.50, 0.95);
      LastIsLargest(a);
      assert a[0] in samples;
    }
  }

  /** The value at a rank of the polygon through the samples: on the line from
      the sample at place `k` to the next one. */
  predicate LiesAfter(a: seq<real>, k: int, rank: real, value: real) {
    && 0 <= k < |a| && 0.0 <= rank - k as real < 1.0
    && value == a[k] + (rank - k as real) * ((if k + 1 < |a| then a[k + 1] else a[k]) - a[k])
  }

  predicate LiesAt(a: seq<real>, rank: real, value: real) {
    exists k :: 0 <= k < |a| && LiesAfter(a, k, rank, value)
  }

  /** Whatever the order of collection: the median lies half way along the
      ascending samples, the 95th percentile at nineteen twentieths, the maximum
      at their end. */
  lemma SummaryExactly(samples: seq<real>, a: seq<real>)
    requires samples != [] && Ascending(a) && multiset(a) == multiset(samples)
    ensures Summarize(samples).Some? && |a| == |samples|
    ensures var s := Summarize(samples).value;
            s.count == |samples| && s.max == a[|samples| - 1]
            && LiesAt(a, (|a| - 1) as real / 2.0, s.p50) && LiesAt(a, (|a| - 1) as real * 19.0 / 20.0, s.p95)
  {
    SortSorts(samples);
    AscendingUnique(Sort(samples), a);
    SummaryOfSorted(a);
    hide LiesAt, Percentile, Ascending, Sort;
  }

  lemma Fractions(n: real)
    ensures 0.50 * n == n / 2.0 && 0.95 * n == n * 19.0 / 20.0
  {}

  lemma SummaryOfSorted(a: seq<real>)
    requires a != []
    ensures Percentile(a, 0.50).Some? && LiesAt(a, (|a| - 1) as real / 2.0, Percentile(a, 0.50).value)
    ensures Percentile(a, 0.95).Some? && LiesAt(a, (|a| - 1) as real * 19.0 / 20.0, Percentile(a, 0.95).value)
  {
    hide LiesAt, Percentile;
    Fractions((|a| - 1) as real);
    PercentileLiesAt(a, 0.50);
    PercentileLiesAt(a, 0.95);
  }

  lemma PercentileLiesAt(a: seq<real>, q: real)
    requires a != [] && 0.0 <= q <= 1.0
    ensures Percentile(a, q).Some? && LiesAt(a, q * (|a| - 1) as real, Percentile(a, q).value)
  {
    var rank := Rank(q, |a|);
    if |a| > 1 {
      AtRankLies(a, rank);
      hide LiesAt, AtRank;
    } else {
      assert rank == 0.0;
      assert LiesAfter(a, 0, rank, a[0]);
    }
  }

  lemma AtRankLies(a: seq<real>, rank: real)
    requires a != [] && 0.0 <= rank <= (|a| - 1) as real
    ensures LiesAt(a, rank, AtRank(a, rank))
  {
    var k := rank.Floor;
    assert k < |a| - 1 || rank == k as real;
    assert LiesAfter(a, k, rank, AtRank(a, rank));
  }

  /** Collection order does not matter. */
  lemma SummaryOrderIndependent(one: seq<real>, other: seq<real>)
    requires multiset(one) == multiset(other)
    ensures Summarize(one) == Summarize(other)
  {
    SortSorts(one);
    SortSorts(other);
    AscendingUnique(Sort(one), Sort(other));
  }

  // --- the fair split ---------------------------------------------------------

  function Shares(requests: nat, observers: nat): seq<nat>
    requires observers > 0
  {
    var base, extra := requests / observers, requests % observers;
    seq(observers, index => base + if index < extra then 1 else 0)
  }

  function Sum(counts: seq<nat>): nat {
    if counts == [] then 0 else Sum(counts[..|counts| - 1]) + counts[|counts| - 1]
  }

  lemma {:induction false} SumOfSteps(counts: seq<nat>, base: nat, extra: nat)
    requires extra <= |counts|
    requires forall i :: 0 <= i < |counts| ==> counts[i] == base + if i < extra then 1 else 0
    ensures Sum(counts) == base * |counts| + extra
  {
    if counts != [] {
      var n := |counts| - 1;
      SumOfSteps(counts[..n], base, if extra <= n then extra else n);
      assert base * |counts| == base * n + base;
    }
  }

  /** The shares add up to the requests and no two differ by more than one. */
  lemma SharesAreFair(requests: nat, observers: nat)
    requires observers > 0
    ensures Sum(Shares(requests, observers)) == requests
    ensures forall i, j :: 0 <= i < j < observers ==>
              Shares(requests, observers)[j] <= Shares(requests, observers)[i]
                <= Shares(requests, observers)[j] + 1
  {
    SumOfSteps(Shares(requests, observers), requests / observers, requests % observers);
    assert requests / observers * observers + requests % observers == requests;
  }

  // --- the observer threads ---------------------------------------------------

  /** One atomic append: a sample under the lock, or an error, which also ends
      that observer. */
  datatype Append = Sample(observer: nat, ms: real) | Error(observer: nat)

  /** What the threads share, and how far each has come. */
  datatype Pool = Pool(done: seq<nat>, samples: seq<real>, errors: seq<nat>)

  function Fresh(observers: nat): Pool {
    Pool(seq(observers, i => 0), [], [])
  }

  ghost predicate Enabled(p: Pool, shares: seq<nat>, s: Append) {
    && |p.done| == |shares| && s.observer < |shares| && s.observer !in p.errors
    // an error may also be the barrier's, raised by an observer with no share
    && (s.Sample? ==> p.done[s.observer] < shares[s.observer])
  }

  function After(p: Pool, s: Append): Pool
    requires s.observer < |p.done|
  {
    match s
    case Sample(o, ms) => p.(done := p.done[o := p.done[o] + 1], samples := p.samples + [ms])
    case Error(o) => p.(errors := p.errors + [o])
  }

  /** `trace` is one interleaving from `from` to `to`. */
  ghost predicate Interleaves(from: Pool, shares: seq<nat>, trace: seq<Append>, to: Pool)
    decreases trace
  {
    if trace == [] then from == to
    else Enabled(from, shares, trace[0]) && Interleaves(After(from, trace[0]), shares, trace[1..], to)
  }

  /** Every thread has been joined. */
  ghost predicate Joined(p: Pool, shares: seq<nat>) {
    |p.done| == |shares| && forall o: nat :: o < |shares| ==> p.done[o] == shares[o] || o in p.errors
  }

  /** After the join: an error is raised again, otherwise the samples are summed up. */
  function Report(p: Pool): Option<Summary> {
    if p.errors != [] then None else Summarize(p.samples)
  }

  /** How many of one observer's first `calls` calls take `ms`. */
  ghost function CallsTaking(times: (nat, nat) -> real, observer: nat, calls: nat, ms: real): nat {
    if calls == 0 then 0
    else CallsTaking(times, observer, calls - 1, ms) + if times(observer, calls - 1) == ms then 1 else 0
  }

  /** How many of the calls made so far take `ms`. */
  ghost function Tally(times: (nat, nat) -> real, done: seq<nat>, ms: real): nat {
    if done == [] then 0
    else
      var last := |done| - 1;
      Tally(times, done[..last], ms) + CallsTaking(times, last, done[last], ms)
  }

  lemma {:induction false} SumOneMore(done: seq<nat>, o: nat)
    requires o < |done|
    ensures Sum(done[o := done[o] + 1]) == Sum(done) + 1
  {
    var last := |done| - 1;
    if o < last {
      assert done[o := done[o] + 1][..last] == done[..last][o := done[o] + 1];
      SumOneMore(done[..last], o);
    } else {
      assert done[o := done[o] + 1][..last] == done[..last];
    }
  }

  lemma {:induction false} TallyOneMore(times: (nat, nat) -> real, done: seq<nat>, o: nat, ms: real)
    requires o < |done|
    ensures Tally(times, done[o := done[o] + 1], ms)
         == Tally(times, done, ms) + if times(o, done[o]) == ms then 1 else 0
  {
    var last := |done| - 1;
    var more := done[o := done[o] + 1];
    if o < last {
      assert more[..last] == done[..last][o := done[o] + 1];
      TallyOneMore(times, done[..last], o, ms);
    } else {
      assert more[..last] == done[..last];
    }
  }

  /** The calls of a trace take the times `times` gives them. */
  ghost predicate Timed(from: Pool, trace: seq<Append>, times: (nat, nat) -> real)
    decreases trace
  {
    trace == [] ||
    ( && trace[0].observer < |from.done|
      && (trace[0].Sample? ==> trace[0].ms == times(trace[0].observer, from.done[trace[0].observer]))
      && Timed(After(from, trace[0]), trace[1..], times) )
  }

  ghost predicate Consistent(p: Pool, shares: seq<nat>, times: (nat, nat) -> real) {
    && |p.done| == |shares| && (forall o: nat :: o < |shares| ==> p.done[o] <= shares[o])
    && |p.samples| == Sum(p.done)
    && (forall ms :: multiset(p.samples)[ms] == Tally(times, p.done, ms))
  }

  lemma AppendConsistent(p: Pool, shares: seq<nat>, s: Append, times: (nat, nat) -> real)
    requires Consistent(p, shares, times) && Enabled(p, shares, s)
    requires s.Sample? ==> s.ms == times(s.observer, p.done[s.observer])
    ensures Consistent(After(p, s), shares, times)
  {
    hide Tally, Sum;
    if s.Sample? {
      SumOneMore(p.done, s.observer);
      forall ms
        ensures multiset(After(p, s).samples)[ms] == Tally(times, After(p, s).done, ms)
      {
        TallyOneMore(times, p.done, s.observer, ms);
      }
    }
  }

  lemma {:induction false} ConsistentAlong(
    from: Pool, shares: seq<nat>, trace: seq<Append>, to: Pool, times: (nat, nat) -> real)
    requires Consistent(from, shares, times)
    requires Interleaves(from, shares, trace, to) && Timed(from, trace, times)
    ensures Consistent(to, shares, times)
    decreases trace
  {
    hide Consistent;
    if trace != [] {
      AppendConsistent(from, shares, trace[0], times);
      ConsistentAlong(After(from, trace[0]), shares, trace[1..], to, times);
    }
  }

  lemma {:induction false} FreshConsistent(shares: seq<nat>, times: (nat, nat) -> real)
    ensures Consistent(Fresh(|shares|), shares, times)
  {
    if shares == [] {
    } else {
      var last := |shares| - 1;
      FreshConsistent(shares[..last], times);
      assert Fresh(|shares|).done[..last] == Fresh(last).done;
    }
  }

  /** One whole measurement that is not refused for its arguments: some
      interleaving from the fresh pool to the join, over the given call times. */
  ghost predicate Measures(
    requests: int, observers: int, times: (nat, nat) -> real, trace: seq<Append>, end: Pool)
  {
    && observers >= 1 && requests >= 1
    && Interleaves(Fresh(observers), Shares(requests, observers), trace, end)
    && Timed(Fresh(observers), trace, times)
    && Joined(end, Shares(requests, observers))
  }

  /** No observer fails along the trace. */
  ghost predicate NoFailure(trace: seq<Append>) {
    forall e :: e in trace ==> !e.Error?
  }

  /** The errors kept are those of the trace, in its order. */
  lemma {:induction false} ErrorsKept(from: Pool, shares: seq<nat>, trace: seq<Append>, to: Pool)
    requires Interleaves(from, shares, trace, to)
    ensures from.errors <= to.errors
    ensures to.errors == from.errors <==> NoFailure(trace)
    decreases trace
  {
    if trace != [] {
      ErrorsKept(After(from, trace[0]), shares, trace[1..], to);
      assert trace == [trace[0]] + trace[1..];
    }
  }

  /** Every interleaving in which no observer fails collects exactly the
      requested number of samples, each duration as often as the calls that take
      it, and reports them all. One failure withholds the summary. */
  lemma EveryInterleavingReports(
    requests: int, observers: int, times: (nat, nat) -> real, trace: seq<Append>, end: Pool)
    requires Measures(requests, observers, times, trace, end)
    ensures NoFailure(trace) ==>
              && |end.samples| == requests
              && (forall ms :: multiset(end.samples)[ms] == Tally(times, Shares(requests, observers), ms))
              && Report(end) == Summarize(end.samples) && Report(end).Some? && Report(end).value.count == requests
    ensures !NoFailure(trace) ==> Report(end).None?
  {
    var shares := Shares(requests, observers);
    ErrorsKept(Fresh(observers), shares, trace, end);
    FreshConsistent(shares, times);
    ConsistentAlong(Fresh(observers), shares, trace, end, times);
    if NoFailure(trace) {
      assert end.done == shares;
      SharesAreFair(requests, observers);
      SummaryOrdered(end.samples);
    }
  }

  /** Two error-free measurements over the same call times report the same. */
  lemma InterleavingIsIrrelevant(
    requests: int, observers: int, times: (nat, nat) -> real,
    trace: seq<Append>, end: Pool, otherTrace: seq<Append>, otherEnd: Pool)
    requires Measures(requests, observers, times, trace, end) && NoFailure(trace)
    requires Measures(requests, observers, times, otherTrace, otherEnd) && NoFailure(otherTrace)
    ensures Report(end) == Report(otherEnd)
  {
    var shares := Shares(requests, observers);
    hide Measures, Tally, Summarize, Shares, NoFailure;
    EveryInterleavingReports(requests, observers, times, trace, end);
    EveryInterleavingReports(requests, observers, times, otherTrace, otherEnd);
    forall ms: real
      ensures multiset(end.samples)[ms] == multiset(otherEnd.samples)[ms]
    {
      assert multiset(end.samples)[ms] == Tally(times, shares, ms);
    }
    assert multiset(end.samples) == multiset(otherEnd.samples);
    SummaryOrderIndependent(end.samples, otherEnd.samples);
  }
}
