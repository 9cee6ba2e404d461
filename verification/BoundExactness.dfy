/** The static worst-case bound against the executor's clock: the bound is
    sound and attained, and the body deadline is met under an exact
    condition. */
module BoundExactness {
  import opened Procedures
  import opened StaticCheck
  import opened Executor
  import opened ScopeSoundness

  /** What a leaf may take, in nanoseconds: its timeout, a capture's plus five
      seconds of epilogue, a delay its own length, a gateway step nothing. */
  predicate InTime(s: Step, spent: nat) {
    match s
    case Invoke(_, _, _, timeout) => spent <= 1_000_000 * timeout
    case Read(_, _, timeout) => spent <= 1_000_000 * timeout
    case Write(_, _, _, timeout) => spent <= 1_000_000 * timeout
    case Capture(_, _, timeout) => spent <= 1_000_000 * (timeout + 5_000)
    case Delay(_, duration) => spent <= 1_000_000 * duration
    case Sample(_, _) => spent == 0
    case Assert(_, _) => spent == 0
    case _ => true
  }

  /** Each leaf stays within its own allowance. */
  ghost predicate Timely(w: World) {
    forall s, a :: InTime(s, w(s, a).duration)
  }

  // ---- soundness ------------------------------------------------------------

  /** From `st` to `st'` at most `budget` milliseconds of work were done, and
      the clock moved by exactly work plus gap. */
  ghost predicate Within(st: State, st': State, budget: nat) {
    && st.work <= st'.work <= st.work + NS_PER_MS * budget
    && st.gap <= st'.gap
    && st'.now - st.now == (st'.work - st.work) + (st'.gap - st.gap)
  }

  /** What `n` iterations may take. */
  function Times(n: nat, b: nat): nat {
    n * b
  }

  lemma OneMore(n: nat, b: nat)
    requires n > 0
    ensures Times(n, b) == b + Times(n - 1, b)
  {}

  /** One iteration of a loop. */
  function Iterate(w: World, deadline: nat, s: Step, at: Address, k: nat, st: State): State
    requires s.Repeat? && st.scope != []
    ensures Iterate(w, deadline, s, at, k, st).scope == st.scope
  {
    Close(Block(w, deadline, s.body, at + [k], 0, Open(st)), st.scope)
  }

  lemma LoopUnfolds(w: World, deadline: nat, s: Step, at: Address, k: nat, st: State)
    requires s.Repeat? && k <= s.count && st.scope != []
    ensures Loop(w, deadline, s, at, k, st)
         == if k < s.count && st.end == Running
            then Loop(w, deadline, s, at, k + 1, Iterate(w, deadline, s, at, k, st)) else st
  {}

  lemma WithinTogether(st: State, st1: State, st2: State, budget: nat, rest: nat)
    requires Within(st, st1, budget) && Within(st1, st2, rest)
    ensures Within(st, st2, budget + rest)
  {}

  lemma NoTimes(n: nat, b: nat)
    requires b == 0
    ensures n * b == 0
  {}

  lemma {:induction false} BlockWithin(w: World, deadline: nat, steps: seq<Step>, at: Address, i: nat, st: State)
    requires st.scope != [] && Timely(w)
    ensures Within(st, Block(w, deadline, steps, at, i, st), Bound(steps))
    decreases steps, 0
  {
    if steps != [] && st.end == Running {
      var s, here := steps[0], at + [i];
      var st1 := Wait(st, w(s, here).gap);
      if st1.now < deadline {
        var st2 := Execute(w, deadline, s, here, st1);
        ExecuteWithin(w, deadline, s, here, st1);
        var st3 := Record(s, here, st2);
        BlockWithin(w, deadline, steps[1..], at, i + 1, st3);
      }
    }
  }

  lemma {:induction false} ExecuteWithin(w: World, deadline: nat, s: Step, at: Address, st: State)
    requires st.scope != [] && st.end == Running && Timely(w)
    ensures Within(st, Execute(w, deadline, s, at, st), StepBound(s))
    decreases s, 0
  {
    LookAllKeepsScope(s, at, st);
    if s.Repeat? {
      LoopWithin(w, deadline, s, at, 0, st);
    } else if s.If? {
      var st1 := StepLooks(s, at, st);
      BlockWithin(w, deadline, s.thn, at + [0], 0, Open(st1));
      BlockWithin(w, deadline, s.els, at + [1], 0, Open(st1));
    }
  }

  lemma {:induction false} LoopWithin(w: World, deadline: nat, s: Step, at: Address, k: nat, st: State)
    requires s.Repeat? && k <= s.count && st.scope != [] && Timely(w)
    ensures Within(st, Loop(w, deadline, s, at, k, st), Times(s.count - k, Bound(s.body)))
    decreases s.body, 1, s.count - k
  {
    LoopUnfolds(w, deadline, s, at, k, st);
    hide Loop, Timely;
    if k < s.count && st.end == Running {
      BlockWithin(w, deadline, s.body, at + [k], 0, Open(st));
      var st1 := Iterate(w, deadline, s, at, k, st);
      assert Within(st, st1, Bound(s.body));
      hide Iterate, Within, Times, Bound;
      LoopWithin(w, deadline, s, at, k + 1, st1);
      OneMore(s.count - k, Bound(s.body));
      WithinTogether(st, st1, Loop(w, deadline, s, at, k + 1, st1), Bound(s.body), Times(s.count - k - 1, Bound(s.body)));
    }
  }

  // ---- the slowest run --------------------------------------------------------

  /** When, in the slowest run, the last-starting step of a block starts. */
  function LatestStart(steps: seq<Step>): nat {
    if steps == [] then 0
    else if steps[1..] == [] then StepLatestStart(steps[0])
    else Max(StepLatestStart(steps[0]), StepBound(steps[0]) + LatestStart(steps[1..]))
  }

  function StepLatestStart(s: Step): nat {
    match s
    case If(_, _, thn, els) => Max(LatestStart(thn), LatestStart(els))
    case Repeat(_, count, body) =>
      if count == 0 then 0 else (count - 1) * Bound(body) + LatestStart(body)
    case _ => 0
  }

  /** No step starts later than the bound. */
  lemma {:induction false} LatestStartWithinBound(steps: seq<Step>)
    ensures LatestStart(steps) <= Bound(steps)
    decreases steps, 1
  {
    if steps != [] {
      StepLatestStartWithinBound(steps[0]);
      LatestStartWithinBound(steps[1..]);
    }
  }

  lemma {:induction false} StepLatestStartWithinBound(s: Step)
    ensures StepLatestStart(s) <= StepBound(s)
    decreases s, 0
  {
    match s {
      case If(_, _, thn, els) => LatestStartWithinBound(thn); LatestStartWithinBound(els);
      case Repeat(_, count, body) =>
        LatestStartWithinBound(body);
        if count > 0 {
          assert count * Bound(body) == (count - 1) * Bound(body) + Bound(body);
        }
      case _ =>
    }
  }

  /** The slowest world on the way to address `t`: every leaf takes its whole
      allowance, branches lead to `t`, and off that way the dearer branch is
      taken; `lateness` is spent before the first step. */
  function Race(t: Address, lateness: nat): World {
    (s: Step, a: Address) =>
      Outcome(if a == [0] then lateness else 0, 0, NS_PER_MS * Allowance(s), false,
              s.Assert? || (if |a| < |t| && a <= t then t[|a|] == 0
                            else s.If? && Bound(s.thn) >= Bound(s.els)))
  }

  lemma RaceIsTimely(t: Address, lateness: nat)
    ensures Timely(Race(t, lateness))
  {}

  /** Nothing at or below `a` is on the way to `t`. */
  predicate Off(t: Address, a: Address) {
    |t| <= |a| || !(a <= t)
  }

  lemma OffBelow(t: Address, a: Address, x: Address)
    requires Off(t, a) && a <= x
    ensures Off(t, x)
  {
    if x <= t {
      assert a == x[..|a|] == t[..|a|];
    }
  }

  lemma OffElsewhere(t: Address, at: Address, i: nat)
    requires at <= t && |at| < |t| && t[|at|] != i
    ensures Off(t, at + [i])
  {
    assert (at + [i])[|at|] == i;
  }

  /** Away from `t`, the slowest world spends exactly the bound, or the
      deadline cuts it short: the body has timed out, or a delay was clamped. */
  ghost predicate SpentAll(st: State, st': State, budget: nat, deadline: nat) {
    || st'.end == TimedOut
    || (&& st'.end == Running && st'.gap == st.gap
        && (st'.now == st.now + NS_PER_MS * budget || st'.now >= deadline))
  }

  /** Host time still to be spent before the next step at this position. */
  function Pending(at: Address, i: nat, lateness: nat): nat {
    if at + [i] == [0] then lateness else 0
  }

  lemma {:induction false} BlockSpends(t: Address, late: nat, deadline: nat, steps: seq<Step>, at: Address, i: nat,
                                       st: State, visible: Visible)
    requires st.scope != [] && st.end == Running && Agrees(st.scope, visible) && Resolvable(steps, visible)
    requires Off(t, at) && (at != [] || i > 0 || late == 0)
    ensures SpentAll(st, Block(Race(t, late), deadline, steps, at, i, st), Bound(steps), deadline)
    decreases steps, 0
  {
    if steps != [] {
      var w, s, here := Race(t, late), steps[0], at + [i];
      var st1 := Wait(st, w(s, here).gap);
      assert here == [0] ==> late == 0 by { if here == [0] { assert here[|at|] == i; } }
      assert st1 == st;
      if st1.now < deadline {
        OffBelow(t, at, here);
        var st2 := Execute(w, deadline, s, here, st1);
        ExecuteSpends(t, late, deadline, s, here, st1, visible);
        var st3 := Record(s, here, st2);
        BindAgrees(st2.scope, visible, s.id, Binding(KindOf(s), here));
        if st3.end == Running {
          BlockSpends(t, late, deadline, steps[1..], at, i + 1, st3, visible[s.id := KindOf(s)]);
        }
      }
    }
  }

  lemma {:induction false} ExecuteSpends(t: Address, late: nat, deadline: nat, s: Step, at: Address, st: State,
                                         visible: Visible)
    requires st.scope != [] && st.end == Running && Agrees(st.scope, visible)
    requires OwnResolvable(s, visible) && NestedResolvable(s, visible) && Off(t, at) && at != []
    ensures SpentAll(st, Execute(Race(t, late), deadline, s, at, st), StepBound(s), deadline)
    decreases s, 0
  {
    var w := Race(t, late);
    LookAllKeepsScope(s, at, st);
    OpenAgrees(st.scope, visible);
    if s.Repeat? {
      forall j: nat ensures Off(t, at + [j]) { OffBelow(t, at, at + [j]); }
      LoopSpends(t, late, deadline, s, at, 0, s.count, st, visible);
      LoopSplits(w, deadline, s, at, 0, s.count, st);
    } else {
      StepLooksExact(s, at, st, visible);
      var st1 := StepLooks(s, at, st);
      if s.If? {
        OffBelow(t, at, at + [0]);
        OffBelow(t, at, at + [1]);
        if w(s, at).verdict {
          BlockSpends(t, late, deadline, s.thn, at + [0], 0, Open(st1), visible);
        } else {
          BlockSpends(t, late, deadline, s.els, at + [1], 0, Open(st1), visible);
        }
      }
    }
  }

  /** The first `n` iterations of a loop, counted from iteration `k`. */
  function LoopTo(w: World, deadline: nat, s: Step, at: Address, k: nat, n: nat, st: State): State
    requires s.Repeat? && k <= n <= s.count && st.scope != []
    ensures LoopTo(w, deadline, s, at, k, n, st).scope == st.scope
    decreases n - k
  {
    if k == n || st.end != Running then st
    else LoopTo(w, deadline, s, at, k + 1, n, Iterate(w, deadline, s, at, k, st))
  }

  lemma {:induction false} LoopSplits(w: World, deadline: nat, s: Step, at: Address, k: nat, n: nat, st: State)
    requires s.Repeat? && k <= n <= s.count && st.scope != []
    ensures Loop(w, deadline, s, at, k, st) == Loop(w, deadline, s, at, n, LoopTo(w, deadline, s, at, k, n, st))
    decreases n - k
  {
    LoopUnfolds(w, deadline, s, at, k, st);
    LoopUnfolds(w, deadline, s, at, n, st);
    hide Loop, Iterate;
    if k < n && st.end == Running {
      LoopSplits(w, deadline, s, at, k + 1, n, Iterate(w, deadline, s, at, k, st));
    }
  }

  lemma {:induction false} LoopSpends(t: Address, late: nat, deadline: nat, s: Step, at: Address, k: nat, n: nat,
                                      st: State, visible: Visible)
    requires s.Repeat? && k <= n <= s.count && st.scope != [] && st.end == Running
    requires Agrees(st.scope, visible) && Resolvable(s.body, visible) && at != []
    requires forall j :: k <= j < n ==> Off(t, at + [j])
    ensures SpentAll(st, LoopTo(Race(t, late), deadline, s, at, k, n, st), Times(n - k, Bound(s.body)), deadline)
    decreases s.body, 1, n - k
  {
    var w := Race(t, late);
    if k < n {
      OpenAgrees(st.scope, visible);
      BlockSpends(t, late, deadline, s.body, at + [k], 0, Open(st), visible);
      var st1 := Iterate(w, deadline, s, at, k, st);
      assert SpentAll(st, st1, Bound(s.body), deadline);
      OneMore(n - k, Bound(s.body));
      hide Block, Race, Agrees, Resolvable, Off, Iterate, Times, Bound;
      if st1.end == Running {
        LoopSpends(t, late, deadline, s, at, k + 1, n, st1, visible);
        SpentTogether(st, st1, LoopTo(w, deadline, s, at, k + 1, n, st1), Bound(s.body), Times(n - k - 1, Bound(s.body)),
                      deadline);
      }
    }
  }

  /** One iteration and the rest of them. */
  lemma SpentTogether(st: State, st1: State, st2: State, budget: nat, rest: nat, deadline: nat)
    requires SpentAll(st, st1, budget, deadline) && SpentAll(st1, st2, rest, deadline) && st1.end == Running
    ensures SpentAll(st, st2, budget + rest, deadline)
  {}

  /** The address of the last-starting step. */
  function LatestAddress(steps: seq<Step>, at: Address, i: nat): (t: Address)
    requires steps != []
    ensures at <= t && |at| < |t| && t[|at|] >= i
    decreases steps, 0
  {
    if steps[1..] == [] || StepLatestStart(steps[0]) >= StepBound(steps[0]) + LatestStart(steps[1..])
    then StepLatestAddress(steps[0], at + [i])
    else LatestAddress(steps[1..], at, i + 1)
  }

  function StepLatestAddress(s: Step, at: Address): (t: Address)
    ensures at <= t
    decreases s, 0
  {
    match s
    case If(_, _, thn, els) =>
      if LatestStart(thn) >= LatestStart(els)
      then (if thn == [] then at else LatestAddress(thn, at + [0], 0))
      else LatestAddress(els, at + [1], 0)
    case Repeat(_, count, body) =>
      if count == 0 || body == [] then at else LatestAddress(body, at + [count - 1], 0)
    case _ => at
  }

  // ---- the deadline -------------------------------------------------------------

  lemma {:induction false} BlockRaces(t: Address, late: nat, deadline: nat, steps: seq<Step>, at: Address, i: nat,
                                      st: State, visible: Visible)
    requires st.scope != [] && st.end == Running && Agrees(st.scope, visible) && Resolvable(steps, visible)
    requires steps != [] && t == LatestAddress(steps, at, i)
    requires st.now + Pending(at, i, late) + NS_PER_MS * LatestStart(steps) >= deadline
    ensures Block(Race(t, late), deadline, steps, at, i, st).end == TimedOut
    decreases steps, 0
  {
    var w, s, here := Race(t, late), steps[0], at + [i];
    var st1 := Wait(st, w(s, here).gap);
    if st1.now < deadline {
      var st2 := Execute(w, deadline, s, here, st1);
      var st3 := Record(s, here, st2);
      if steps[1..] == [] || StepLatestStart(s) >= StepBound(s) + LatestStart(steps[1..]) {
        ExecuteRaces(t, late, deadline, s, here, st1, visible);
      } else {
        OffElsewhere(t, at, i);
        ExecuteSpends(t, late, deadline, s, here, st1, visible);
        if st3.end == Running {
          BindAgrees(st2.scope, visible, s.id, Binding(KindOf(s), here));
          BlockRaces(t, late, deadline, steps[1..], at, i + 1, st3, visible[s.id := KindOf(s)]);
        }
      }
    }
  }

  lemma {:induction false} ExecuteRaces(t: Address, late: nat, deadline: nat, s: Step, at: Address, st: State,
                                        visible: Visible)
    requires st.scope != [] && st.end == Running && Agrees(st.scope, visible) && at != []
    requires OwnResolvable(s, visible) && NestedResolvable(s, visible)
    requires t == StepLatestAddress(s, at)
    requires st.now < deadline <= st.now + NS_PER_MS * StepLatestStart(s)
    ensures Execute(Race(t, late), deadline, s, at, st).end == TimedOut
    decreases s, 0
  {
    var w := Race(t, late);
    LookAllKeepsScope(s, at, st);
    OpenAgrees(st.scope, visible);
    if s.Repeat? {
      LoopRaces(t, late, deadline, s, at, st, visible);
    } else {
      StepLooksExact(s, at, st, visible);
      var st1 := StepLooks(s, at, st);
      if LatestStart(s.thn) >= LatestStart(s.els) {
        assert at <= at + [0] <= t && t[|at|] == 0;
        BlockRaces(t, late, deadline, s.thn, at + [0], 0, Open(st1), visible);
      } else {
        assert at <= at + [1] <= t && t[|at|] == 1;
        BlockRaces(t, late, deadline, s.els, at + [1], 0, Open(st1), visible);
      }
    }
  }

  lemma LatestInside(s: Step)
    requires s.Repeat?
    ensures StepLatestStart(s) > 0 ==> s.count > 0 && s.body != []
  {
    if s.body == [] && s.count > 0 {
      NoTimes(s.count - 1, Bound(s.body));
      assert LatestStart(s.body) == 0;
    }
  }

  lemma {:induction false} LoopRaces(t: Address, late: nat, deadline: nat, s: Step, at: Address, st: State,
                                     visible: Visible)
    requires st.scope != [] && st.end == Running && Agrees(st.scope, visible) && at != []
    requires s.Repeat? && Resolvable(s.body, visible) && t == StepLatestAddress(s, at)
    requires st.now < deadline <= st.now + NS_PER_MS * StepLatestStart(s)
    ensures Loop(Race(t, late), deadline, s, at, 0, st).end == TimedOut
    decreases s.body, 1
  {
    var w, last := Race(t, late), s.count - 1;
    LatestInside(s);
    assert at + [last] <= t && t[|at|] == last;
    forall j | 0 <= j < last ensures Off(t, at + [j]) {
      OffElsewhere(t, at, j);
    }
    LoopSplits(w, deadline, s, at, 0, last, st);
    LoopSpends(t, late, deadline, s, at, 0, last, st, visible);
    var st1 := LoopTo(w, deadline, s, at, 0, last, st);
    if st1.end == Running {
      OpenAgrees(st1.scope, visible);
      BlockRaces(t, late, deadline, s.body, at + [last], 0, Open(st1), visible);
      var st2 := Close(Block(w, deadline, s.body, at + [last], 0, Open(st1)), st1.scope);
      assert Loop(w, deadline, s, at, s.count, st2) == st2;
    }
  }

  lemma {:induction false} BlockGap(t: Address, late: nat, deadline: nat, steps: seq<Step>, at: Address, i: nat, st: State)
    requires st.scope != []
    ensures Block(Race(t, late), deadline, steps, at, i, st).gap <= st.gap + Pending(at, i, late)
    ensures at != [] ==> Block(Race(t, late), deadline, steps, at, i, st).gap == st.gap
    decreases steps, 0
  {
    if steps != [] && st.end == Running {
      var w, s, here := Race(t, late), steps[0], at + [i];
      var st1 := Wait(st, w(s, here).gap);
      if st1.now < deadline {
        var st2 := Execute(w, deadline, s, here, st1);
        ExecuteGap(t, late, deadline, s, here, st1);
        var st3 := Record(s, here, st2);
        BlockGap(t, late, deadline, steps[1..], at, i + 1, st3);
        assert (at + [i + 1])[|at|] == i + 1;
      }
    }
  }

  lemma {:induction false} ExecuteGap(t: Address, late: nat, deadline: nat, s: Step, at: Address, st: State)
    requires st.scope != [] && st.end == Running && at != []
    ensures Execute(Race(t, late), deadline, s, at, st).gap == st.gap
    decreases s, 0
  {
    LookAllKeepsScope(s, at, st);
    if s.Repeat? {
      LoopGap(t, late, deadline, s, at, 0, st);
    } else if s.If? {
      var st1 := StepLooks(s, at, st);
      BlockGap(t, late, deadline, s.thn, at + [0], 0, Open(st1));
      BlockGap(t, late, deadline, s.els, at + [1], 0, Open(st1));
    }
  }

  lemma {:induction false} LoopGap(t: Address, late: nat, deadline: nat, s: Step, at: Address, k: nat, st: State)
    requires s.Repeat? && k <= s.count && st.scope != [] && at != []
    ensures Loop(Race(t, late), deadline, s, at, k, st).gap == st.gap
    decreases s.body, 1, s.count - k
  {
    if k < s.count && st.end == Running {
      BlockGap(t, late, deadline, s.body, at + [k], 0, Open(st));
      LoopGap(t, late, deadline, s, at, k + 1, Close(Block(Race(t, late), deadline, s.body, at + [k], 0, Open(st)), st.scope));
    }
  }

  /** No step of a timely run starts so late that a deadline beyond the
      latest start plus the host's own time could have passed. */
  lemma {:induction false} BlockInTime(w: World, deadline: nat, slack: nat, steps: seq<Step>, at: Address, i: nat, st: State)
    requires st.scope != [] && st.end != TimedOut && Timely(w)
    requires Block(w, deadline, steps, at, i, st).gap <= slack
    requires steps != [] ==> (st.now - st.gap) + slack + NS_PER_MS * LatestStart(steps) < deadline
    ensures Block(w, deadline, steps, at, i, st).end != TimedOut
    decreases steps, 0
  {
    if steps != [] && st.end == Running {
      var s, here, rest := steps[0], at + [i], steps[1..];
      var done := Block(w, deadline, steps, at, i, st);
      var st1 := Wait(st, w(s, here).gap);
      assert st1.now >= deadline ==> done.gap == st1.gap;
      if st1.now < deadline {
        var st2 := Execute(w, deadline, s, here, st1);
        var st3 := Record(s, here, st2);
        BlockWithin(w, deadline, rest, at, i + 1, st3);
        ExecuteWithin(w, deadline, s, here, st1);
        ExecuteInTime(w, deadline, slack, s, here, st1);
        BlockInTime(w, deadline, slack, rest, at, i + 1, st3);
      }
    }
  }

  lemma {:induction false} ExecuteInTime(w: World, deadline: nat, slack: nat, s: Step, at: Address, st: State)
    requires st.scope != [] && st.end == Running && Timely(w)
    requires Execute(w, deadline, s, at, st).gap <= slack
    requires (st.now - st.gap) + slack + NS_PER_MS * StepLatestStart(s) < deadline
    ensures Execute(w, deadline, s, at, st).end != TimedOut
    decreases s, 0
  {
    LookAllKeepsScope(s, at, st);
    if s.Repeat? {
      LoopInTime(w, deadline, slack, s, at, 0, st);
    } else if s.If? {
      var st1 := StepLooks(s, at, st);
      if st1.end == Running && !w(s, at).ends {
        if w(s, at).verdict {
          BlockInTime(w, deadline, slack, s.thn, at + [0], 0, Open(st1));
        } else {
          BlockInTime(w, deadline, slack, s.els, at + [1], 0, Open(st1));
        }
      }
    }
  }

  lemma {:induction false} LoopInTime(w: World, deadline: nat, slack: nat, s: Step, at: Address, k: nat, st: State)
    requires s.Repeat? && k <= s.count && st.scope != [] && st.end != TimedOut && Timely(w)
    requires Loop(w, deadline, s, at, k, st).gap <= slack
    requires k < s.count ==>
      (st.now - st.gap) + slack + NS_PER_MS * (Times(s.count - k - 1, Bound(s.body)) + LatestStart(s.body)) < deadline
    ensures Loop(w, deadline, s, at, k, st).end != TimedOut
    decreases s.body, 1, s.count - k
  {
    LoopUnfolds(w, deadline, s, at, k, st);
    hide Loop, Timely, Times;
    if k < s.count && st.end == Running {
      var st1 := Iterate(w, deadline, s, at, k, st);
      LoopWithin(w, deadline, s, at, k + 1, st1);
      BlockWithin(w, deadline, s.body, at + [k], 0, Open(st));
      BlockInTime(w, deadline, slack, s.body, at + [k], 0, Open(st));
      if k + 1 < s.count {
        OneMore(s.count - k - 1, Bound(s.body));
      }
      LoopInTime(w, deadline, slack, s, at, k + 1, st1);
    }
  }

  // ---- the results -----------------------------------------------------------------

  /** Every timely run of every procedure does at most the bound's work. */
  lemma BoundSound(steps: seq<Step>, w: World, deadline: nat)
    requires Timely(w)
    ensures Run(w, deadline, steps).work <= NS_PER_MS * Bound(steps)
    ensures Run(w, deadline, steps).now == Run(w, deadline, steps).work + Run(w, deadline, steps).gap
  {
    BlockWithin(w, deadline, steps, [], 0, State(0, 0, 0, [map[]], [], Running));
  }

  /** Some timely run does exactly the bound's work and completes, whenever
      the procedure is resolvable and the deadline lies beyond the bound. */
  lemma BoundAttained(steps: seq<Step>, deadline: nat)
    requires Resolvable(steps, map[]) && NS_PER_MS * Bound(steps) < deadline
    ensures exists w: World :: Timely(w) && Run(w, deadline, steps).end == Running
                               && Run(w, deadline, steps).work == NS_PER_MS * Bound(steps)
  {
    var st := State(0, 0, 0, [map[]], [], Running);
    var w := Race([], 0);
    RaceIsTimely([], 0);
    LatestStartWithinBound(steps);
    BlockSpends([], 0, deadline, steps, [], 0, st, map[]);
    BlockWithin(w, deadline, steps, [], 0, st);
    BlockGap([], 0, deadline, steps, [], 0, st);
    BlockInTime(w, deadline, 0, steps, [], 0, st);
    assert Timely(w) && Run(w, deadline, steps).end == Running
        && Run(w, deadline, steps).work == NS_PER_MS * Bound(steps);
  }

  ghost predicate NeverTimesOut(steps: seq<Step>, deadline: nat, slack: nat) {
    forall w: World :: Timely(w) && Run(w, deadline, steps).gap <= slack ==> Run(w, deadline, steps).end != TimedOut
  }

  /** A resolvable body never meets its deadline check, whatever its timely
      world and wherever at most `slack` of host time falls, exactly when the
      latest start plus that time stays below the deadline. */
  lemma DeadlineExactly(steps: seq<Step>, deadline: nat, slack: nat)
    requires steps != [] && Resolvable(steps, map[])
    ensures NeverTimesOut(steps, deadline, slack) == (NS_PER_MS * LatestStart(steps) + slack < deadline)
  {
    var st := State(0, 0, 0, [map[]], [], Running);
    if NS_PER_MS * LatestStart(steps) + slack < deadline {
      forall w: World | Timely(w) && Run(w, deadline, steps).gap <= slack
        ensures Run(w, deadline, steps).end != TimedOut
      {
        BlockInTime(w, deadline, slack, steps, [], 0, st);
      }
    } else {
      var t := LatestAddress(steps, [], 0);
      var w := Race(t, slack);
      RaceIsTimely(t, slack);
      BlockGap(t, slack, deadline, steps, [], 0, st);
      BlockRaces(t, slack, deadline, steps, [], 0, st, map[]);
      assert Timely(w) && Run(w, deadline, steps).gap <= slack && Run(w, deadline, steps).end == TimedOut;
    }
  }
}
