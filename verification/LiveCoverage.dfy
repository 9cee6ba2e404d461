/** How much of a measurement window had a live run: the active-run driver's
    interval bookkeeping and the fraction it reports. Time is counted in ticks
    of the monotonic clock. */
module LiveCoverage {
  import opened Options

  /** A finished run, live from its start until its end. */
  datatype Interval = Interval(start: int, end: int)

  predicate InInterval(i: Interval, t: int) {
    i.start <= t < i.end
  }

  /** Ordered, disjoint, and all over by `limit`. */
  ghost predicate Ordered(intervals: seq<Interval>, limit: int) {
    && (forall i :: 0 <= i < |intervals| ==> intervals[i].start <= intervals[i].end <= limit)
    && (forall i, j :: 0 <= i < j < |intervals| ==> intervals[i].end <= intervals[j].start)
  }

  predicate LiveAt(intervals: seq<Interval>, open: Option<int>, t: int) {
    (exists i :: 0 <= i < |intervals| && InInterval(intervals[i], t)) || (open.Some? && open.value <= t)
  }

  /** The ticks of a window at which a run was live. */
  function LiveTicks(intervals: seq<Interval>, open: Option<int>, lo: int, hi: int): set<int> {
    set t | lo <= t < hi && LiveAt(intervals, open, t)
  }

  function Clip(start: int, end: int, lo: int, hi: int): int {
    var from, to := if start > lo then start else lo, if end < hi then end else hi;
    if to - from > 0 then to - from else 0
  }

  function ClippedSum(intervals: seq<Interval>, lo: int, hi: int): int {
    if intervals == [] then 0
    else
      var last := intervals[|intervals| - 1];
      ClippedSum(intervals[..|intervals| - 1], lo, hi) + Clip(last.start, last.end, lo, hi)
  }

  // ---- the clipped sum is the live time -----------------------------------------------

  predicate Between(a: int, t: int, b: int) {
    a <= t < b
  }

  function Span(a: int, b: int): set<int> {
    set t | a <= t < b && Between(a, t, b)
  }

  /** The ticks of an interval that fall in a window. */
  function Clipped(start: int, end: int, lo: int, hi: int): set<int> {
    Span(if start > lo then start else lo, if end < hi then end else hi)
  }

  lemma {:induction false} SpanSize(a: int, b: int)
    ensures |Span(a, b)| == if b > a then b - a else 0
    decreases if b > a then b - a else 0
  {
    if b > a {
      SpanSize(a, b - 1);
      assert Span(a, b) == Span(a, b - 1) + {b - 1};
    }
  }

  lemma ClippedSize(start: int, end: int, lo: int, hi: int)
    ensures |Clipped(start, end, lo, hi)| == Clip(start, end, lo, hi)
  {
    SpanSize(if start > lo then start else lo, if end < hi then end else hi);
  }

  lemma LiveWithLast(intervals: seq<Interval>, lo: int, hi: int)
    requires intervals != []
    ensures LiveTicks(intervals, None, lo, hi)
         == LiveTicks(intervals[..|intervals| - 1], None, lo, hi)
            + Clipped(intervals[|intervals| - 1].start, intervals[|intervals| - 1].end, lo, hi)
  {
    var init, last := intervals[..|intervals| - 1], intervals[|intervals| - 1];
    forall t ensures LiveAt(intervals, None, t) <==> LiveAt(init, None, t) || InInterval(last, t) {
      if LiveAt(init, None, t) {
        var i :| 0 <= i < |init| && InInterval(init[i], t);
        assert InInterval(intervals[i], t);
      }
    }
  }

  lemma {:induction false} ClippedSumIsLiveTime(intervals: seq<Interval>, limit: int, lo: int, hi: int)
    requires Ordered(intervals, limit)
    ensures |LiveTicks(intervals, None, lo, hi)| == ClippedSum(intervals, lo, hi)
    decreases |intervals|
  {
    if intervals == [] {
      assert LiveTicks(intervals, None, lo, hi) == {};
    } else {
      var init, last := intervals[..|intervals| - 1], intervals[|intervals| - 1];
      ClippedSumIsLiveTime(init, limit, lo, hi);
      ClippedSize(last.start, last.end, lo, hi);
      LiveWithLast(intervals, lo, hi);
      EarlierIsApart(init, last.start, last.end, lo, hi);
    }
  }

  lemma EarlierIsApart(intervals: seq<Interval>, start: int, end: int, lo: int, hi: int)
    requires Ordered(intervals, start)
    ensures LiveTicks(intervals, None, lo, hi) !! Clipped(start, end, lo, hi)
  {}

  lemma OpenAddsLiveTime(intervals: seq<Interval>, open: int, lo: int, hi: int)
    requires Ordered(intervals, open)
    ensures |LiveTicks(intervals, Some(open), lo, hi)|
         == |LiveTicks(intervals, None, lo, hi)| + Clip(open, hi, lo, hi)
  {
    ClippedSize(open, hi, lo, hi);
    EarlierIsApart(intervals, open, hi, lo, hi);
    assert LiveTicks(intervals, Some(open), lo, hi) == LiveTicks(intervals, None, lo, hi) + Clipped(open, hi, lo, hi);
  }

  lemma LiveTimeFitsWindow(intervals: seq<Interval>, open: Option<int>, lo: int, hi: int)
    requires lo <= hi
    ensures |LiveTicks(intervals, open, lo, hi)| <= hi - lo
  {
    SpanSize(lo, hi);
    Subset(LiveTicks(intervals, open, lo, hi), Span(lo, hi));
  }

  lemma Subset(a: set<int>, b: set<int>)
    requires a <= b
    ensures |a| <= |b|
  {
    assert b == a + (b - a);
  }

  // ---- the driver --------------------------------------------------------------------

  class Driver {
    var intervals: seq<Interval>
    var openSince: Option<int>
    ghost var clock: int

    constructor (ghost now: int)
      ensures Valid() && intervals == [] && openSince == None && clock == now
    {
      intervals, openSince, clock := [], None, now;
    }

    /** What every reachable state keeps under a monotonic clock. */
    ghost predicate Valid()
      reads this
    {
      && Ordered(intervals, if openSince.Some? then openSince.value else clock)
      && (openSince.Some? ==> openSince.value <= clock)
    }

    /** A run was accepted. */
    method Accept(now: int)
      requires Valid() && clock <= now && openSince.None?
      modifies this
      ensures Valid() && clock == now && openSince == Some(now) && intervals == old(intervals)
      ensures forall t :: t < now ==> LiveAt(intervals, openSince, t) == LiveAt(old(intervals), None, t)
    {
      openSince := Some(now);
      clock := now;
    }

    /** The run reached its terminal observation, or polling it failed. */
    method Finish(now: int)
      requires Valid() && clock <= now && openSince.Some?
      modifies this
      ensures Valid() && clock == now && openSince == None
      ensures intervals == old(intervals) + [Interval(old(openSince).value, now)]
      ensures forall t :: t < now ==> LiveAt(intervals, None, t) == LiveAt(old(intervals), old(openSince), t)
    {
      var closed := Interval(openSince.value, now);
      FinishKeepsLiveness(intervals, openSince.value, now);
      intervals := intervals + [closed];
      openSince := None;
      clock := now;
    }

    /** The live fraction of a window: for a window that is over, exactly the
        live ticks over its length, so the clamp never acts. */
    method Coverage(lo: int, hi: int) returns (fraction: real)
      requires Valid()
      ensures hi <= lo ==> fraction == 0.0
      ensures hi > lo ==> fraction == (|LiveTicks(intervals, openSince, lo, hi)| as real) / ((hi - lo) as real)
      ensures 0.0 <= fraction <= 1.0
    {
      var window := hi - lo;
      if window <= 0 {
        return 0.0;
      }
      var live := 0;
      var i := 0;
      while i < |intervals|
        invariant 0 <= i <= |intervals| && live == ClippedSum(intervals[..i], lo, hi)
      {
        assert intervals[..i + 1][..i] == intervals[..i];
        live := live + Clip(intervals[i].start, intervals[i].end, lo, hi);
        i := i + 1;
      }
      assert intervals[..|intervals|] == intervals;
      ClippedSumIsLiveTime(intervals, if openSince.Some? then openSince.value else clock, lo, hi);
      if openSince.Some? {
        OpenAddsLiveTime(intervals, openSince.value, lo, hi);
        var from := if openSince.value > lo then openSince.value else lo;
        live := live + (if hi - from > 0 then hi - from else 0);
      }
      LiveTimeFitsWindow(intervals, openSince, lo, hi);
      FractionInRange(live, window);
      fraction := (live as real) / (window as real);
      if fraction > 1.0 {
        fraction := 1.0;
      }
    }
  }

  lemma FractionInRange(live: int, window: int)
    requires 0 <= live <= window && window > 0
    ensures 0.0 <= (live as real) / (window as real) <= 1.0
  {}

  lemma FinishKeepsLiveness(intervals: seq<Interval>, open: int, now: int)
    ensures forall t :: t < now ==>
      LiveAt(intervals + [Interval(open, now)], None, t) == LiveAt(intervals, Some(open), t)
  {
    var longer := intervals + [Interval(open, now)];
    forall t | t < now ensures LiveAt(longer, None, t) == LiveAt(intervals, Some(open), t) {
      if exists i :: 0 <= i < |intervals| && InInterval(intervals[i], t) {
        var i :| 0 <= i < |intervals| && InInterval(intervals[i], t);
        assert InInterval(longer[i], t);
      }
      if open <= t { assert InInterval(longer[|intervals|], t); }
    }
  }
}
