/** The demo's live feed: a banner, then bench events page by page until the
    run is terminal, one error record if the drive fails. */
module LiveFeed {
  import opened Options

  type Event = nat

  datatype Record = Banner | BenchEvent(event: Event) | FeedError

  /** One REST cycle as the server, the clock and the operator answer it: the
      new events, whether the run reads terminal, how the cycle fails if it does
      (before the page is read, or at the deadline after it), and whether the
      view is closed during the wait that follows it. */
  datatype Cycle = Cycle(events: seq<Event>, terminal: bool, failsEarly: bool, pastDeadline: bool, closes: bool)

  predicate Raises(c: Cycle) {
    c.failsEarly || (!c.terminal && c.pastDeadline)
  }

  datatype Fate = GoesOn | Raised | Terminal | Closed

  /** What a cycle means for the feed. */
  function FateOf(c: Cycle): Fate {
    if Raises(c) then Raised else if c.terminal then Terminal else if c.closes then Closed else GoesOn
  }

  /** Once the deadline has passed a live run makes the cycle raise. */
  ghost predicate Bounded(cycles: nat -> Cycle, limit: nat) {
    forall k :: k >= limit ==> FateOf(cycles(k)).Terminal? || FateOf(cycles(k)).Raised?
  }

  /** The events of the cycles that returned, among the first `n`. */
  function Returned(cycles: nat -> Cycle, n: nat): seq<Event> {
    if n == 0 then []
    else Returned(cycles, n - 1) + if Raises(cycles(n - 1)) then [] else cycles(n - 1).events
  }

  /** The events of the pages that were read. */
  function SeenEvents(cycles: nat -> Cycle, n: nat): seq<Event> {
    if n == 0 then []
    else SeenEvents(cycles, n - 1) + if cycles(n - 1).failsEarly then [] else cycles(n - 1).events
  }

  function Last(cycles: nat -> Cycle, n: nat): Fate {
    if n == 0 then GoesOn else FateOf(cycles(n - 1))
  }

  /** No cycle but the last of the first `n` ends the feed. */
  ghost predicate Course(cycles: nat -> Cycle, n: nat) {
    forall k :: 0 <= k < n - 1 ==> FateOf(cycles(k)).GoesOn?
  }

  lemma {:induction false} SeenIsReturned(cycles: nat -> Cycle, n: nat)
    requires Course(cycles, n) && !Last(cycles, n).Raised?
    ensures SeenEvents(cycles, n) == Returned(cycles, n)
  {
    if n > 0 {
      SeenIsReturned(cycles, n - 1);
    }
  }

  // --- the records --------------------------------------------------------------

  /** The events of a record sequence. */
  function EventsOf(records: seq<Record>): seq<Event> {
    if records == [] then []
    else
      var last := records[|records| - 1];
      EventsOf(records[..|records| - 1]) + (if last.BenchEvent? then [last.event] else [])
  }

  function Records(events: seq<Event>): seq<Record> {
    seq(|events|, i requires 0 <= i < |events| => BenchEvent(events[i]))
  }

  /** One banner, then events only, then at most one error. */
  ghost predicate WellShaped(records: seq<Record>) {
    && (records != [] ==> records[0] == Banner)
    && (forall i :: 0 < i < |records| - 1 ==> records[i].BenchEvent?)
    && (|records| > 1 ==> !records[|records| - 1].Banner?)
  }

  /** A record that follows the banner keeps the shape and adds its event. */
  lemma Serve(records: seq<Record>, r: Record)
    requires WellShaped(records)
    requires if r.Banner? then records == [] else records != [] && FeedError !in records
    ensures WellShaped(records + [r])
    ensures EventsOf(records + [r]) == EventsOf(records) + (if r.BenchEvent? then [r.event] else [])
    ensures r != FeedError ==> FeedError !in records + [r]
  {
    assert (records + [r])[..|records|] == records;
    if records != [] {
      assert records[|records| - 1] in records;
    }
  }

  /** The shape and the events determine the records. */
  lemma {:induction false} ShapeDetermines(records: seq<Record>)
    requires WellShaped(records) && records != []
    ensures records == [Banner] + Records(EventsOf(records)) + if FeedError in records then [FeedError] else []
    decreases |records|
  {
    var init, last := records[..|records| - 1], records[|records| - 1];
    if init == [] {
      assert records == [Banner];
    } else {
      assert WellShaped(init) by {
        assert init[|init| - 1] == records[|init| - 1];
      }
      assert FeedError !in init;
      ShapeDetermines(init);
      assert records == init + [last];
    }
  }

  // --- the drive ------------------------------------------------------------------

  class LiveDrive {
    const cycles: nat -> Cycle       // what each poll will meet
    var polls: nat
    var seen: seq<Event>
    var terminal: bool
    var stopped: bool
    var failed: bool

    constructor (cycles: nat -> Cycle)
      ensures this.cycles == cycles && polls == 0 && Valid()
      ensures !terminal && !stopped && !failed
    {
      this.cycles := cycles;
      polls, seen, terminal, stopped, failed := 0, [], false, false, false;
    }

    ghost predicate Valid()
      reads this
    {
      seen == SeenEvents(cycles, polls)
    }

    /** `None` is the truthful error. At the deadline the page has already been
        recorded as seen. */
    method Poll() returns (events: Option<seq<Event>>)
      requires Valid()
      modifies `polls, `seen, `terminal
      ensures Valid() && polls == old(polls) + 1
      ensures events == if Raises(cycles(old(polls))) then None else Some(cycles(old(polls)).events)
      ensures terminal == (old(terminal) || FateOf(cycles(old(polls))).Terminal?)
    {
      var c := cycles(polls);
      polls := polls + 1;
      if c.failsEarly {
        return None;
      }
      seen := seen + c.events;
      if c.terminal {
        terminal := true;
      } else if c.pastDeadline {
        return None;
      }
      return Some(c.events);
    }

    method Fail()
      modifies `failed
      ensures failed
    {
      failed := true;
    }

    method Stop()
      modifies `stopped
      ensures stopped
    {
      stopped := true;
    }

    /** The wait after a cycle; true when the view was closed during it. */
    method WaitPollInterval() returns (closed: bool)
      requires polls > 0
      modifies `stopped
      ensures stopped == closed == (old(stopped) || cycles(polls - 1).closes)
    {
      stopped := stopped || cycles(polls - 1).closes;
      return stopped;
    }

    /** The drive summary's event count: for a run that reached terminal, else
        for a view the operator closed; `None` re-raises the failure. It counts
        the events of every page read, whoever consumed them. */
    method EventsObserved() returns (n: Option<nat>)
      requires Valid()
      ensures n == if failed || (!terminal && !stopped) then None else Some(|SeenEvents(cycles, polls)|)
    {
      if failed || (!terminal && !stopped) { return None; }
      return Some(|seen|);
    }
  }

  // --- the feed -------------------------------------------------------------------

  /** How one turn of the feed's inner loop leaves it. */
  datatype Turn = Onward | TurnFailed | Exhausted | TurnClosed

  class LiveFeed {
    const drive: LiveDrive
    const limit: nat                 // the deadline: from this cycle on a live run raises
    var pending: seq<Event>
    var servedBanner: bool
    var done: bool
    ghost var delivered: seq<Record>

    constructor (drive: LiveDrive, limit: nat)
      requires drive.Valid() && drive.polls == 0 && !drive.terminal && !drive.failed && !drive.stopped
      requires Bounded(drive.cycles, limit)
      ensures this.drive == drive && this.limit == limit && delivered == [] && Valid()
    {
      this.drive := drive;
      this.limit := limit;
      pending, servedBanner, done, delivered := [], false, false, [];
    }

    /** Nothing a cycle returned is lost, repeated or reordered. */
    ghost predicate Conserved()
      reads this, drive
    {
      EventsOf(delivered) + pending == Returned(drive.cycles, drive.polls)
    }

    /** The flags say how the last cycle went, and only that one ended anything;
        the operator may also have closed the view between two records. */
    ghost predicate Settled()
      reads this, drive
    {
      var last := Last(drive.cycles, drive.polls);
      && Course(drive.cycles, drive.polls)
      && drive.terminal == last.Terminal? && drive.failed == last.Raised? && (last.Closed? ==> drive.stopped)
      && done == (last.Terminal? || last.Raised?)
      && (last.Raised? ==> pending == [])
      && (last.Raised? <==> FeedError in delivered)
    }

    ghost predicate Valid()
      reads this, drive
    {
      && Bounded(drive.cycles, limit)
      && drive.Valid()
      && WellShaped(delivered)
      && (servedBanner <==> delivered != [])
      && (!servedBanner ==> drive.polls == 0 && pending == [])
      && Conserved()
      && Settled()
    }

    /** The operator closes the view between two records. */
    method Close()
      requires Valid()
      modifies drive`stopped
      ensures Valid() && drive.stopped
    {
      drive.Stop();
    }

    /** One turn: poll, and on a live run wait out the interval. */
    method Turn() returns (turn: Turn)
      requires Valid() && servedBanner && pending == [] && !done && !drive.stopped
      modifies this, drive
      ensures Valid() && servedBanner && drive.polls == old(drive.polls) + 1
      ensures delivered == old(delivered) + (if turn.TurnFailed? then [FeedError] else [])
      ensures !turn.TurnFailed? ==> pending == drive.cycles(drive.polls - 1).events
      ensures drive.stopped == Last(drive.cycles, drive.polls).Closed?
      ensures turn == match Last(drive.cycles, drive.polls)
                      case Raised => TurnFailed
                      case Terminal => if pending == [] then Exhausted else Onward
                      case Closed => TurnClosed
                      case GoesOn => Onward
    {
      hide EventsOf, WellShaped;
      var events := drive.Poll();
      if events.None? {
        drive.Fail();
        done := true;
        Serve(delivered, FeedError);
        delivered := delivered + [FeedError];
        return TurnFailed;
      }
      assert EventsOf(delivered) + [] == EventsOf(delivered);
      pending := events.value;
      if drive.terminal {
        done := true;
        return if pending == [] then Exhausted else Onward;
      }
      var closed := drive.WaitPollInterval();
      return if closed then TurnClosed else Onward;
    }

    /** The next record, or `None` for the end of the feed: the banner, else the
        oldest pending event, else whatever the next cycles bring. */
    method Next() returns (r: Option<Record>)
      requires Valid()
      modifies this, drive
      ensures Valid() && servedBanner
      ensures delivered == old(delivered) + (if r.Some? then [r.value] else [])
      ensures !old(servedBanner) ==> r == Some(Banner) && pending == old(pending) && drive.polls == old(drive.polls)
      ensures old(servedBanner) && old(pending) != [] ==>
                r == Some(BenchEvent(old(pending)[0])) && pending == old(pending)[1..]
      ensures old(servedBanner) && old(done) && old(pending) == [] ==> r.None?
      ensures r.None? ==> (done && pending == []) || drive.stopped
      ensures old(drive.stopped) ==> drive.stopped && drive.polls == old(drive.polls) && (r.None? ==> pending == [])
      ensures !old(drive.stopped) && drive.stopped ==>
                && r.None? && Last(drive.cycles, drive.polls).Closed?
                && pending == drive.cycles(drive.polls - 1).events
      // the last poll was made with everything returned before it delivered
      ensures drive.polls > old(drive.polls) ==>
                && old(servedBanner) && !old(drive.failed)
                && EventsOf(old(delivered)) == Returned(drive.cycles, drive.polls - 1)
      ensures drive.polls >= old(drive.polls)
      ensures drive.polls == old(drive.polls) && r.Some? ==>
                !old(servedBanner) || |pending| < |old(pending)|
    {
      hide EventsOf, WellShaped, Returned, SeenEvents, Course;
      if !servedBanner {
        servedBanner := true;
        Serve(delivered, Banner);
        delivered := delivered + [Banner];
        return Some(Banner);
      }
      while pending == []
        invariant Valid() && servedBanner && delivered == old(delivered)
        invariant drive.polls >= old(drive.polls)
        invariant drive.polls == old(drive.polls) ==> pending == old(pending) && done == old(done)
        invariant old(done) || old(pending) != [] ==> drive.polls == old(drive.polls)
        invariant drive.polls > old(drive.polls) ==>
                    EventsOf(delivered) == Returned(drive.cycles, drive.polls - 1)
        invariant drive.stopped == old(drive.stopped) && (drive.stopped ==> drive.polls == old(drive.polls))
        decreases limit + 1 - drive.polls
      {
        if done || drive.stopped {
          return None;
        }
        StillLive(drive.cycles, limit, drive.polls);
        var turn := Turn();
        match turn
        case TurnFailed => return Some(FeedError);
        case Exhausted => return None;
        case TurnClosed => return None;
        case Onward =>
      }
      r := Some(BenchEvent(pending[0]));
      Serve(delivered, BenchEvent(pending[0]));
      delivered := delivered + [BenchEvent(pending[0])];
      assert [pending[0]] + pending[1..] == pending;
      assert EventsOf(old(delivered)) + ([pending[0]] + pending[1..])
          == EventsOf(old(delivered)) + [pending[0]] + pending[1..];
      pending := pending[1..];
    }
  }

  lemma StillLive(cycles: nat -> Cycle, limit: nat, n: nat)
    requires Bounded(cycles, limit) && Last(cycles, n).GoesOn?
    ensures n <= limit
  {}

  /** What a feed over these cycles delivers if the n-th was its last. */
  function Feed(cycles: nat -> Cycle, n: nat): seq<Record> {
    [Banner] + Records(Returned(cycles, if Last(cycles, n).Closed? then n - 1 else n))
    + if Last(cycles, n).Raised? then [FeedError] else []
  }

  /** The feed ends after its n-th cycle if the operator closes the view before
      call number `closing`: no earlier cycle ends it and none is polled after
      the close; and if the n-th does not end it, the close came by the time
      everything it returned had been delivered. */
  ghost predicate EndsAfter(cycles: nat -> Cycle, n: nat, closing: Option<nat>) {
    && Course(cycles, n)
    && (n > 0 && closing.Some? ==> |Feed(cycles, n - 1)| < closing.value)
    && (Last(cycles, n).GoesOn? ==> closing.Some? && closing.value <= |Feed(cycles, n)|)
  }

  lemma {:induction false} ReturnedGrows(cycles: nat -> Cycle, n: nat, m: nat)
    requires n <= m
    ensures |Returned(cycles, n)| <= |Returned(cycles, m)|
    decreases m
  {
    if n < m {
      ReturnedGrows(cycles, n, m - 1);
    }
  }

  /** The cycles and the close fix where the feed ends. */
  lemma EndIsDetermined(cycles: nat -> Cycle, n: nat, m: nat, closing: Option<nat>)
    requires EndsAfter(cycles, n, closing) && EndsAfter(cycles, m, closing)
    ensures n == m
  {
    if n < m {
      NoEarlierEnd(cycles, n, m, closing);
    } else if m < n {
      NoEarlierEnd(cycles, m, n, closing);
    }
  }

  lemma NoEarlierEnd(cycles: nat -> Cycle, n: nat, m: nat, closing: Option<nat>)
    requires EndsAfter(cycles, n, closing) && EndsAfter(cycles, m, closing)
    ensures m <= n
  {
    if n < m {
      assert n > 0 ==> FateOf(cycles(n - 1)).GoesOn?;
      assert m > 1 ==> FateOf(cycles(m - 2)).GoesOn?;
      ReturnedGrows(cycles, n, m - 1);
    }
  }

  /** The whole feed, consumed to its end; the operator may close the view before
      call number `closing`, beside what may happen during the waits. It ends at
      the first cycle that is terminal, raises or meets a close, or is cut short
      after one that goes on. By then it has delivered one banner, the events of
      every cycle that returned, in order and once, and one error record exactly
      if the last cycle raised; only a close during a wait leaves out the page it
      interrupts. The summary counts every returned event. */
  method Consume(feed: LiveFeed, closing: Option<nat>) returns (observed: Option<nat>)
    requires feed.Valid() && feed.delivered == [] && !feed.drive.stopped
    modifies feed, feed.drive
    ensures EndsAfter(feed.drive.cycles, feed.drive.polls, closing)
    ensures feed.delivered == Feed(feed.drive.cycles, feed.drive.polls)
    ensures observed == if Last(feed.drive.cycles, feed.drive.polls).Raised? then None
                        else Some(|Returned(feed.drive.cycles, feed.drive.polls)|)
  {
    hide EventsOf, WellShaped, SeenEvents, Course, Feed, Returned, Bounded;
    var calls := 0;
    while true
      invariant feed.Valid() && calls == |feed.delivered|
      invariant !Last(feed.drive.cycles, feed.drive.polls).Closed?
      invariant feed.drive.stopped <==> closing.Some? && closing.value < calls
      invariant feed.drive.polls > 0 ==>
                  |Feed(feed.drive.cycles, feed.drive.polls - 1)| < calls
                  && (closing.Some? ==> |Feed(feed.drive.cycles, feed.drive.polls - 1)| < closing.value)
      decreases feed.limit + 1 - feed.drive.polls, |feed.pending| + if feed.servedBanner then 0 else 1
    {
      FewPolls(feed.drive.cycles, feed.limit, feed.drive.polls);
      if closing == Some(calls) {
        feed.Close();
      }
      ghost var before, polls := feed.delivered, feed.drive.polls;
      var r := feed.Next();
      FewPolls(feed.drive.cycles, feed.limit, feed.drive.polls);
      if feed.drive.polls > polls {
        DeliveredBefore(feed.drive.cycles, feed.drive.polls, before);
      }
      if r.None? {
        Finished(feed);
        observed := feed.drive.EventsObserved();
        if !Last(feed.drive.cycles, feed.drive.polls).Raised? {
          SeenIsReturned(feed.drive.cycles, feed.drive.polls);
        }
        return;
      }
      calls := calls + 1;
    }
  }

  /** What was delivered when the n-th cycle was polled. */
  lemma DeliveredBefore(cycles: nat -> Cycle, n: nat, delivered: seq<Record>)
    requires n > 0 && Course(cycles, n) && WellShaped(delivered) && delivered != [] && FeedError !in delivered
    requires EventsOf(delivered) == Returned(cycles, n - 1)
    ensures delivered == Feed(cycles, n - 1)
  {
    ShapeDetermines(delivered);
  }

  /** A feed that has ended has delivered what its cycles make it deliver. */
  lemma Finished(feed: LiveFeed)
    requires feed.Valid() && feed.servedBanner
    requires var cycles, n := feed.drive.cycles, feed.drive.polls;
             feed.pending == if Last(cycles, n).Closed? then cycles(n - 1).events else []
    ensures feed.delivered == Feed(feed.drive.cycles, feed.drive.polls)
  {
    var cycles, n := feed.drive.cycles, feed.drive.polls;
    var events := EventsOf(feed.delivered);
    ShapeDetermines(feed.delivered);
    if Last(cycles, n).Closed? {
      assert Returned(cycles, n) == Returned(cycles, n - 1) + feed.pending;
      SameHead(events, Returned(cycles, n - 1), feed.pending);
    } else {
      assert events + [] == events;
    }
  }

  lemma FewPolls(cycles: nat -> Cycle, limit: nat, n: nat)
    requires Bounded(cycles, limit) && Course(cycles, n)
    ensures n <= limit + 1
  {
    assert n >= limit + 2 ==> FateOf(cycles(limit)).GoesOn?;
  }

  lemma SameHead(a: seq<Event>, b: seq<Event>, tail: seq<Event>)
    requires a + tail == b + tail
    ensures a == b
  {
    assert |a| == |b|;
    assert a == (a + tail)[..|a|] && b == (b + tail)[..|b|];
  }
}
