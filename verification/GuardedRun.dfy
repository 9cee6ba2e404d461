/** Running a child under completion markers: a reader thread stamps markers
    in a shared dictionary while a waiting loop decides which of four endings
    the run has. */
module GuardedRun {
  import opened Options

  /** Which patterns a line of output matches, and when it was forwarded. */
  datatype Line = Line(failBanner: bool, okHead: bool, siteReady: bool, bucketDone: bool, at: nat)

  datatype Marker = InProcess | Bucket

  // ---- what the markers should mean, over the lines forwarded so far ------------

  predicate IsFail(l: Line) { l.failBanner }

  predicate IsHead(l: Line) { !l.failBanner && l.okHead }

  predicate IsReady(l: Line) { !l.failBanner && !l.okHead && l.siteReady }

  ghost predicate HeadSeen(lines: seq<Line>) {
    exists i :: 0 <= i < |lines| && IsHead(lines[i])
  }

  /** The success marker completed at line `j`: for a bucket its own line, in
      process a ready line after a head line. */
  ghost predicate Completes(kind: Marker, lines: seq<Line>, j: nat)
    requires j < |lines|
  {
    match kind
    case Bucket => lines[j].bucketDone
    case InProcess => IsReady(lines[j]) && HeadSeen(lines[..j])
  }

  ghost predicate FailSeen(kind: Marker, lines: seq<Line>) {
    kind.InProcess? && exists i :: 0 <= i < |lines| && IsFail(lines[i])
  }

  /** The success marker was first completed at time `t`. */
  ghost predicate FirstCompleted(kind: Marker, lines: seq<Line>, t: nat) {
    exists j :: 0 <= j < |lines| && Completes(kind, lines, j) && lines[j].at == t
                && forall k :: 0 <= k < j ==> !Completes(kind, lines, k)
  }

  ghost predicate FirstFailed(kind: Marker, lines: seq<Line>, t: nat) {
    kind.InProcess? && exists j :: 0 <= j < |lines| && IsFail(lines[j]) && lines[j].at == t
                                   && forall k :: 0 <= k < j ==> !IsFail(lines[k])
  }

  /** A clock that never reads zero, which the dictionary uses for unset. */
  predicate Stamped(lines: seq<Line>) {
    forall l :: l in lines ==> l.at > 0
  }

  // ---- the shared dictionary -----------------------------------------------------

  class Marked {
    const kind: Marker
    var ok: nat
    var fail: nat
    var head: bool
    ghost var lines: seq<Line>

    constructor (kind: Marker)
      ensures this.kind == kind && Valid() && lines == [] && ok == 0 && fail == 0
    {
      this.kind := kind;
      ok, fail, head, lines := 0, 0, false, [];
    }

    /** The dictionary says exactly what the lines say. */
    ghost predicate Valid()
      reads this
    {
      && Stamped(lines)
      && (ok == 0 <==> forall j :: 0 <= j < |lines| ==> !Completes(kind, lines, j))
      && (ok != 0 ==> FirstCompleted(kind, lines, ok))
      && (fail == 0 <==> !FailSeen(kind, lines))
      && (fail != 0 ==> FirstFailed(kind, lines, fail))
      && (kind.InProcess? ==> (head <==> HeadSeen(lines)))
    }

    /** The reader's handling of one line. */
    method Forward(l: Line)
      requires Valid() && l.at > 0
      modifies this
      ensures Valid() && lines == old(lines) + [l]
      ensures old(ok) != 0 ==> ok == old(ok)
      ensures old(fail) != 0 ==> fail == old(fail)
    {
      CompletesAppend(kind, lines, l);
      if kind.Bucket? {
        if l.bucketDone && ok == 0 {
          ok := l.at;
        }
      } else if l.failBanner {
        if fail == 0 {
          fail := l.at;
        }
      } else if l.okHead {
        head := true;
      } else if head && l.siteReady && ok == 0 {
        ok := l.at;
      }
      lines := lines + [l];
    }

    /** The lines the reader forwards between two reads of the waiter. */
    method CatchUp(batch: seq<Line>)
      requires Valid() && Stamped(batch)
      modifies this
      ensures Valid() && lines == old(lines) + batch
      ensures old(ok) != 0 ==> ok == old(ok)
      ensures old(fail) != 0 ==> fail == old(fail)
    {
      hide FirstCompleted, FirstFailed, FailSeen, HeadSeen, Completes;
      var i := 0;
      while i < |batch|
        invariant 0 <= i <= |batch| && Valid() && lines == old(lines) + batch[..i]
        invariant old(ok) != 0 ==> ok == old(ok)
        invariant old(fail) != 0 ==> fail == old(fail)
      {
        assert batch[..i + 1] == batch[..i] + [batch[i]];
        Forward(batch[i]);
        i := i + 1;
      }
      assert batch[..|batch|] == batch;
    }
  }

  /** What one more line changes about the markers. */
  lemma CompletesAppend(kind: Marker, lines: seq<Line>, l: Line)
    ensures var longer := lines + [l];
      && (forall j :: 0 <= j < |lines| ==> Completes(kind, longer, j) == Completes(kind, lines, j))
      && (Completes(kind, longer, |lines|) == (if kind.Bucket? then l.bucketDone else IsReady(l) && HeadSeen(lines)))
      && (HeadSeen(longer) == (HeadSeen(lines) || IsHead(l)))
      && (FailSeen(kind, longer) == (FailSeen(kind, lines) || (kind.InProcess? && IsFail(l))))
      && (forall t :: FirstCompleted(kind, lines, t) ==> FirstCompleted(kind, longer, t))
      && (forall t :: FirstFailed(kind, lines, t) ==> FirstFailed(kind, longer, t))
  {
    var longer := lines + [l];
    assert longer[..|lines|] == lines && longer[|lines|] == l;
    forall j | 0 <= j < |lines| ensures Completes(kind, longer, j) == Completes(kind, lines, j) {
      assert longer[..j] == lines[..j];
    }
    if HeadSeen(lines) {
      var i :| 0 <= i < |lines| && IsHead(lines[i]);
      assert IsHead(longer[i]);
    }
    if IsHead(l) { assert IsHead(longer[|lines|]); }
    if FailSeen(kind, lines) {
      var i :| 0 <= i < |lines| && IsFail(lines[i]);
      assert IsFail(longer[i]);
    }
    if kind.InProcess? && IsFail(l) { assert IsFail(longer[|lines|]); }
  }

  // ---- the waiting loop -------------------------------------------------------------

  datatype Cause = ExitedZero | MarkerHeld

  datatype Ending =
    | Success(cause: Cause)
    | CommandFailed(code: int)
    | BannerFailed
    | TimedOut
    | Waiting     // no ending yet

  /** One interleaving. Per round the waiter has five places at which it reads
      the dictionary: the failure key twice, then the success key, the failure
      key and the success key. `batch(k)` is what the reader forwards before the
      k-th place; `exit` and `now` are the child's exit and the clock per round. */
  datatype Schedule = Schedule(batch: nat -> seq<Line>, exit: nat -> Option<int>, now: nat -> nat)

  /** The clock advances by at least one wait per round that sees no exit. */
  ghost predicate Passes(sched: Schedule, started: nat) {
    && (forall k :: Stamped(sched.batch(k)))
    && (forall n :: sched.now(n) >= started + n)
  }

  /** The child's output forwarded when the k-th place is read. */
  function LinesBefore(sched: Schedule, k: nat): seq<Line> {
    if k == 0 then [] else LinesBefore(sched, k - 1) + sched.batch(k - 1)
  }

  /** In round `n`: the output at the first read of the failure key. */
  function AtFailure(sched: Schedule, n: nat): seq<Line> {
    LinesBefore(sched, 5 * n + 1)
  }

  /** At the first read of the success key. */
  function AtSuccess(sched: Schedule, n: nat): seq<Line> {
    LinesBefore(sched, 5 * n + 3)
  }

  /** At the read of the failure key that guards success. */
  function AtGuard(sched: Schedule, n: nat): seq<Line> {
    LinesBefore(sched, 5 * n + 4)
  }

  /** The failure marker has stood for the grace period. */
  ghost predicate FailDue(kind: Marker, seen: seq<Line>, now: nat, grace: nat) {
    exists t: nat :: FirstFailed(kind, seen, t) && now >= t + grace
  }

  /** The success marker has stood for the grace period and no failure is seen. */
  ghost predicate SuccessDue(kind: Marker, seen: seq<Line>, guard: seq<Line>, now: nat, grace: nat) {
    (exists t: nat :: FirstCompleted(kind, seen, t) && now >= t + grace) && !FailSeen(kind, guard)
  }

  /** What a round without an exit comes to, read off the child's output:
      failure, then success, then the timeout. */
  ghost function Due(sched: Schedule, kind: Marker, grace: nat, limit: nat, n: nat): Ending {
    var now := sched.now(n);
    if FailDue(kind, AtFailure(sched, n), now, grace) then BannerFailed
    else if SuccessDue(kind, AtSuccess(sched, n), AtGuard(sched, n), now, grace) then Success(MarkerHeld)
    else if now >= limit then TimedOut else Waiting
  }

  /** The ending due in round `n`. */
  ghost function Verdict(sched: Schedule, kind: Marker, grace: nat, limit: nat, n: nat): Ending {
    match sched.exit(n)
    case Some(code) => if code != 0 then CommandFailed(code) else Success(ExitedZero)
    case None => Due(sched, kind, grace, limit, n)
  }

  /** Which ending a round has: the child's own exit wins, then a failure
      banner that stood, then a success that stood with no failure seen, then the
      timeout. */
  lemma VerdictExactly(sched: Schedule, kind: Marker, grace: nat, limit: nat, n: nat)
    ensures var v, now, exit := Verdict(sched, kind, grace, limit, n), sched.now(n), sched.exit(n);
      var fails := FailDue(kind, LinesBefore(sched, 5 * n + 1), now, grace);
      var succeeds := SuccessDue(kind, LinesBefore(sched, 5 * n + 3), LinesBefore(sched, 5 * n + 4), now, grace);
      && (v == Success(ExitedZero) <==> exit == Some(0))
      && (forall code :: v == CommandFailed(code) <==> exit == Some(code) && code != 0)
      && (v == BannerFailed <==> exit == None && fails)
      && (v == Success(MarkerHeld) <==> exit == None && succeeds && !fails)
      && (v == TimedOut <==> exit == None && now >= limit && !succeeds && !fails)
      && (v == Waiting <==> exit == None && now < limit && !succeeds && !fails)
  {
    hide FailDue, SuccessDue, LinesBefore;
  }

  ghost predicate Silent(sched: Schedule, kind: Marker, grace: nat, limit: nat, n: nat) {
    Verdict(sched, kind, grace, limit, n) == Waiting
  }

  /** Round `n` is the first with an ending, and `e` is that ending. */
  ghost predicate EndsIn(sched: Schedule, kind: Marker, grace: nat, limit: nat, e: Ending, n: nat) {
    && e != Waiting && e == Verdict(sched, kind, grace, limit, n)
    && forall i: nat :: i < n ==> Silent(sched, kind, grace, limit, i)
  }

  /** The schedule alone, so the child's own output, exit and timing, fixes how
      the run ends. */
  lemma EndingIsDetermined(sched: Schedule, kind: Marker, grace: nat, limit: nat, e: Ending, n: nat, f: Ending, m: nat)
    requires EndsIn(sched, kind, grace, limit, e, n) && EndsIn(sched, kind, grace, limit, f, m)
    ensures e == f && n == m
  {
    hide Verdict;
    assert n < m ==> Silent(sched, kind, grace, limit, n);
    assert m < n ==> Silent(sched, kind, grace, limit, m);
  }

  lemma FirstIsOnly(kind: Marker, lines: seq<Line>, t: nat, u: nat)
    ensures FirstFailed(kind, lines, t) && FirstFailed(kind, lines, u) ==> t == u
    ensures FirstCompleted(kind, lines, t) && FirstCompleted(kind, lines, u) ==> t == u
  {
  }

  /** What the waiter does to the child and the reader. */
  datatype Effect = Wait | Reclaim | Join

  function Waits(n: nat): seq<Effect> {
    if n == 0 then [] else Waits(n - 1) + [Wait]
  }

  /** How many places the reader has been joined past. */
  function JoinedAt(e: Ending, n: nat): nat {
    5 * n + (if e.CommandFailed? || e == Success(ExitedZero) then 1 else if e.BannerFailed? then 3 else 6)
  }

  /** Every interleaving ends, in the first round in which an ending is due on
      the output forwarded so far, and with that ending. The child's group is
      reclaimed after the last wait and before the reader is joined. */
  method RunMarkerGuarded(m: Marked, sched: Schedule, grace: nat, timeout: nat, started: nat)
    returns (e: Ending, effects: seq<Effect>, ghost n: nat)
    requires m.Valid() && m.lines == [] && Passes(sched, started)
    modifies m
    ensures EndsIn(sched, m.kind, grace, started + timeout, e, n)
    ensures m.Valid() && m.lines == LinesBefore(sched, JoinedAt(e, n))
    ensures effects == Waits(n + 1) + [Reclaim, Join]
    ensures m.kind.Bucket? ==> e != BannerFailed
    ensures n <= timeout
  {
    hide FailDue, SuccessDue, LinesBefore;
    NothingBefore(sched);
    var limit := started + timeout;
    var round := 0;
    n, effects := 0, [];
    while true
      invariant m.Valid() && n == round <= timeout && m.lines == LinesBefore(sched, 5 * round)
      invariant effects == Waits(round)
      invariant forall i: nat :: i < round ==> Silent(sched, m.kind, grace, limit, i)
      decreases timeout - round
    {
      effects := effects + [Wait];
      var code, now := sched.exit(round), sched.now(round);
      if code.Some? {
        e := if code.value != 0 then CommandFailed(code.value) else Success(ExitedZero);
      } else {
        e := Decide(m, sched, round, grace, limit);
      }
      if e != Waiting {
        effects := effects + [Reclaim];
        var place := if code.Some? then 5 * round else if e == BannerFailed then 5 * round + 2 else 5 * round + 5;
        Follow(m, sched, place);
        effects := effects + [Join];
        return;
      }
      if now >= limit {
        LateIsNotWaiting(sched, m.kind, grace, limit, round);
      }
      round := round + 1;
      n := round;
    }
  }

  lemma NothingBefore(sched: Schedule)
    ensures LinesBefore(sched, 0) == []
  {}

  lemma LateIsNotWaiting(sched: Schedule, kind: Marker, grace: nat, limit: nat, n: nat)
    requires sched.now(n) >= limit
    ensures Due(sched, kind, grace, limit, n) != Waiting
  {}

  /** The reader forwards what belongs before the next place. */
  method Follow(m: Marked, sched: Schedule, k: nat)
    requires m.Valid() && Stamped(sched.batch(k)) && m.lines == LinesBefore(sched, k)
    modifies m
    ensures m.Valid() && m.lines == LinesBefore(sched, k + 1)
    ensures old(m.ok) != 0 ==> m.ok == old(m.ok)
    ensures old(m.fail) != 0 ==> m.fail == old(m.fail)
  {
    m.CatchUp(sched.batch(k));
  }

  /** The rest of a round that sees no exit. */
  method Decide(m: Marked, sched: Schedule, round: nat, grace: nat, limit: nat) returns (e: Ending)
    requires m.Valid() && (forall k :: Stamped(sched.batch(k))) && m.lines == LinesBefore(sched, 5 * round)
    modifies m
    ensures e == Due(sched, m.kind, grace, limit, round)
    ensures m.Valid() && m.lines == LinesBefore(sched, if e == BannerFailed then 5 * round + 2 else 5 * round + 5)
    ensures m.kind.Bucket? ==> e != BannerFailed
  {
    hide FailDue, SuccessDue, LinesBefore;
    var now := sched.now(round);
    var failed := FailHeld(m, sched, 5 * round, now, grace);
    if failed {
      return BannerFailed;
    }
    var held := OkHeld(m, sched, 5 * round + 2, now, grace);
    e := if held then Success(MarkerHeld) else if now >= limit then TimedOut else Waiting;
  }

  /** The failure check: two reads of the same key, the reader between them. */
  method FailHeld(m: Marked, sched: Schedule, k: nat, now: nat, grace: nat) returns (failed: bool)
    requires m.Valid() && Stamped(sched.batch(k)) && Stamped(sched.batch(k + 1)) && m.lines == LinesBefore(sched, k)
    modifies m
    ensures m.Valid() && m.lines == LinesBefore(sched, k + 2)
    ensures failed <==> FailDue(m.kind, LinesBefore(sched, k + 1), now, grace)
    ensures failed ==> m.kind.InProcess?
  {
    hide LinesBefore;
    Follow(m, sched, k);
    var marked := m.fail != 0;
    ghost var at := m.fail;
    forall t { FirstIsOnly(m.kind, m.lines, at, t); }
    Follow(m, sched, k + 1);
    failed := marked && now >= m.fail + grace;
  }

  /** The success check: success key, failure key, success key again. */
  method OkHeld(m: Marked, sched: Schedule, k: nat, now: nat, grace: nat) returns (held: bool)
    requires m.Valid() && m.lines == LinesBefore(sched, k) && forall i :: Stamped(sched.batch(i))
    modifies m
    ensures m.Valid() && m.lines == LinesBefore(sched, k + 3)
    ensures held <==> SuccessDue(m.kind, LinesBefore(sched, k + 1), LinesBefore(sched, k + 2), now, grace)
  {
    hide LinesBefore;
    Follow(m, sched, k);
    var marked := m.ok != 0;
    ghost var at := m.ok;
    forall t { FirstIsOnly(m.kind, m.lines, at, t); }
    Follow(m, sched, k + 1);
    var clear := m.fail == 0;
    Follow(m, sched, k + 2);
    held := marked && clear && now >= m.ok + grace;
  }
}
