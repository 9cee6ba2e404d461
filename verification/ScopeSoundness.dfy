/** The static scope check against the executor: what a run may read, and
    exactly which procedures never meet an unresolved name. */
module ScopeSoundness {
  import opened Options
  import opened Procedures
  import opened StaticCheck
  import opened Executor

  // ---- the chain of scopes agrees with the checker's visible names --------

  ghost predicate Agrees(scope: Scope, visible: Visible) {
    forall name :: if name in visible
      then Lookup(scope, name).Some? && Lookup(scope, name).value.kind == visible[name]
      else Lookup(scope, name).None?
  }

  lemma LookupAfterBind(scope: Scope, id: string, b: Binding, name: string)
    requires scope != []
    ensures Lookup(Bind(scope, id, b), name) == if name == id then Some(b) else Lookup(scope, name)
  {
    assert Bind(scope, id, b)[1..] == scope[1..];
  }

  lemma LookupAfterOpen(scope: Scope, name: string)
    ensures Lookup([map[]] + scope, name) == Lookup(scope, name)
  {
    assert ([map[]] + scope)[1..] == scope;
  }

  lemma BindAgrees(scope: Scope, visible: Visible, id: string, b: Binding)
    requires scope != [] && Agrees(scope, visible)
    ensures Agrees(Bind(scope, id, b), visible[id := b.kind])
  {
    forall name { LookupAfterBind(scope, id, b, name); }
  }

  lemma OpenAgrees(scope: Scope, visible: Visible)
    requires Agrees(scope, visible)
    ensures Agrees([map[]] + scope, visible)
  {
    forall name { LookupAfterOpen(scope, name); }
  }

  // ---- references that can be resolved ------------------------------------

  /** Every visible reference names an operation: invoke, read, write or
      capture. The static check does not ask this. */
  ghost predicate OperationRefs(steps: seq<Step>, visible: Visible) {
    steps == []
    || ((forall r :: Reads(steps[0], r) && r in visible ==> IsOperation(visible[r]))
        && NestedOperationRefs(steps[0], visible)
        && OperationRefs(steps[1..], visible[steps[0].id := KindOf(steps[0])]))
  }

  ghost predicate NestedOperationRefs(s: Step, visible: Visible) {
    match s
    case If(_, _, thn, els) => OperationRefs(thn, visible) && OperationRefs(els, visible)
    case Repeat(_, _, body) => OperationRefs(body, visible)
    case _ => true
  }

  ghost predicate Resolvable(steps: seq<Step>, visible: Visible) {
    ScopeClean(steps, visible) && OperationRefs(steps, visible)
  }

  ghost predicate NestedResolvable(s: Step, visible: Visible) {
    NestedScopeClean(s, visible) && NestedOperationRefs(s, visible)
  }

  ghost predicate OwnResolvable(s: Step, visible: Visible) {
    && OwnScopeClean(s, visible)
    && (forall r :: Reads(s, r) ==> IsOperation(visible[r]))
  }

  lemma {:induction false} LookAllExact(names: seq<string>, need: Need, at: Address, st: State)
    requires st.end == Running
    ensures (LookAll(names, need, at, st).end == Running)
         == (forall n :: n in names ==> Serves(Lookup(st.scope, n), need))
    decreases names
  {
    if names != [] {
      assert names == [names[0]] + names[1..];
      var found := Lookup(st.scope, names[0]);
      if Serves(found, need) {
        LookAllExact(names[1..], need, at, st.(trace := st.trace + [Looked(names[0], need, at, found)]));
      } else {
        assert names[0] in names && !Serves(Lookup(st.scope, names[0]), need);
      }
    }
  }

  /** A step gets past its own lookups exactly when the lexical rule and the
      operation rule hold of it. */
  lemma StepLooksExact(s: Step, at: Address, st: State, visible: Visible)
    requires st.end == Running && Agrees(st.scope, visible) && !s.Repeat?
    ensures (StepLooks(s, at, st).end == Running) == OwnResolvable(s, visible)
  {
    if s.Sample? {
      LookAllExact([s.source], NeedInvoke, at, st);
      assert s.source in [s.source];
    } else if s.If? || s.Assert? {
      LookAllExact([s.pred.sample], NeedSample, at, st);
      assert s.pred.sample in [s.pred.sample];
    } else {
      LookAllExact(StepRefs(s), NeedResult, at, st);
      forall r { StepRefsExactly(s, r); }
    }
  }

  // ---- no resolvable procedure ever ends unresolved ------------------------

  /** A world that costs nothing, ends nothing and fails no assertion. */
  ghost predicate Quiet(w: World) {
    forall s, a :: w(s, a).gap == 0 && w(s, a).prep == 0 && w(s, a).duration == 0 && !w(s, a).ends && (s.Assert? ==> w(s, a).verdict)
  }

  /** What a resolvable block keeps: the run is not unresolved, and a quiet
      world carries it through without ending. */
  ghost predicate Carried(w: World, deadline: nat, st: State, st': State) {
    && st'.end != Unresolved
    && (Quiet(w) && st.now < deadline ==> st'.end == Running && st'.now == st.now)
  }

  lemma {:induction false} BlockResolves(w: World, deadline: nat, steps: seq<Step>, at: Address, i: nat,
                                         st: State, visible: Visible)
    requires st.scope != [] && st.end == Running
    requires Agrees(st.scope, visible) && Resolvable(steps, visible)
    ensures Carried(w, deadline, st, Block(w, deadline, steps, at, i, st))
    decreases steps, 0
  {
    if steps != [] {
      var s, here := steps[0], at + [i];
      var st1 := Wait(st, w(s, here).gap);
      if st1.now < deadline {
        var st2 := Execute(w, deadline, s, here, st1);
        ExecuteResolves(w, deadline, s, here, st1, visible);
        var st3 := Record(s, here, st2);
        BindAgrees(st2.scope, visible, s.id, Binding(KindOf(s), here));
        if st3.end == Running {
          BlockResolves(w, deadline, steps[1..], at, i + 1, st3, visible[s.id := KindOf(s)]);
        }
      }
    }
  }

  lemma {:induction false} ExecuteResolves(w: World, deadline: nat, s: Step, at: Address, st: State, visible: Visible)
    requires st.scope != [] && st.end == Running && st.now < deadline
    requires Agrees(st.scope, visible) && OwnResolvable(s, visible) && NestedResolvable(s, visible)
    ensures Carried(w, deadline, st, Execute(w, deadline, s, at, st))
    decreases s, 0
  {
    LookAllKeepsScope(s, at, st);
    OpenAgrees(st.scope, visible);
    if s.Repeat? {
      LoopResolves(w, deadline, s, at, 0, st, visible);
    } else {
      StepLooksExact(s, at, st, visible);
      var st1 := StepLooks(s, at, st);
      if s.If? && !w(s, at).ends {
        if w(s, at).verdict {
          BlockResolves(w, deadline, s.thn, at + [0], 0, Open(st1), visible);
        } else {
          BlockResolves(w, deadline, s.els, at + [1], 0, Open(st1), visible);
        }
      }
    }
  }

  lemma {:induction false} LoopResolves(w: World, deadline: nat, s: Step, at: Address, k: nat, st: State, visible: Visible)
    requires s.Repeat? && k <= s.count && st.scope != [] && st.end == Running
    requires Agrees(st.scope, visible) && Resolvable(s.body, visible)
    ensures Carried(w, deadline, st, Loop(w, deadline, s, at, k, st))
    decreases s.body, 1, s.count - k
  {
    if k < s.count {
      OpenAgrees(st.scope, visible);
      BlockResolves(w, deadline, s.body, at + [k], 0, Open(st), visible);
      var st1 := Close(Block(w, deadline, s.body, at + [k], 0, Open(st)), st.scope);
      if st1.end == Running {
        LoopResolves(w, deadline, s, at, k + 1, st1, visible);
      }
    }
  }

  // ---- every other procedure has a run that does ----------------------------

  /** A quiet world that takes the branches leading to address `t`. */
  function Steer(t: Address): World {
    (s: Step, a: Address) => Outcome(0, 0, 0, false, s.Assert? || (|a| < |t| && t[|a|] == 0))
  }

  /** Where an unresolvable block first breaks the rules. */
  ghost function FaultAddress(steps: seq<Step>, at: Address, i: nat, visible: Visible): (t: Address)
    requires !Resolvable(steps, visible)
    ensures at <= t
    decreases steps
  {
    var s := steps[0];
    if !OwnResolvable(s, visible) then at + [i]
    else if !NestedResolvable(s, visible) then
      assert at <= at + [i];
      match s
      case If(_, _, thn, els) =>
        if !Resolvable(thn, visible) then FaultAddress(thn, at + [i] + [0], 0, visible)
        else FaultAddress(els, at + [i] + [1], 0, visible)
      case Repeat(_, _, body) => FaultAddress(body, at + [i] + [0], 0, visible)
    else FaultAddress(steps[1..], at, i + 1, visible[s.id := KindOf(s)])
  }

  lemma {:induction false} BlockFaults(deadline: nat, steps: seq<Step>, at: Address, i: nat, st: State,
                                       visible: Visible, t: Address)
    requires st.scope != [] && st.end == Running && st.now < deadline && PositiveCounts(steps)
    requires Agrees(st.scope, visible) && !Resolvable(steps, visible)
    requires t == FaultAddress(steps, at, i, visible)
    ensures Block(Steer(t), deadline, steps, at, i, st).end == Unresolved
    decreases steps, 0
  {
    var w, s, here := Steer(t), steps[0], at + [i];
    var st1 := Wait(st, w(s, here).gap);
    var st2 := Execute(w, deadline, s, here, st1);
    var st3 := Record(s, here, st2);
    if OwnResolvable(s, visible) && NestedResolvable(s, visible) {
      ExecuteResolves(w, deadline, s, here, st1, visible);
      BindAgrees(st2.scope, visible, s.id, Binding(KindOf(s), here));
      BlockFaults(deadline, steps[1..], at, i + 1, st3, visible[s.id := KindOf(s)], t);
    } else {
      ExecuteFaults(deadline, s, here, st1, visible, t);
    }
  }

  lemma {:induction false} ExecuteFaults(deadline: nat, s: Step, at: Address, st: State, visible: Visible, t: Address)
    requires st.scope != [] && st.end == Running && st.now < deadline && StepPositive(s)
    requires Agrees(st.scope, visible)
    requires !OwnResolvable(s, visible) || !NestedResolvable(s, visible)
    requires OwnResolvable(s, visible) ==> match s
      case If(_, _, thn, els) =>
        t == (if !Resolvable(thn, visible) then FaultAddress(thn, at + [0], 0, visible)
              else FaultAddress(els, at + [1], 0, visible))
      case Repeat(_, _, body) => t == FaultAddress(body, at + [0], 0, visible)
      case _ => true
    ensures Execute(Steer(t), deadline, s, at, st).end == Unresolved
    decreases s, 0
  {
    var w := Steer(t);
    LookAllKeepsScope(s, at, st);
    OpenAgrees(st.scope, visible);
    if s.Repeat? {
      BlockFaults(deadline, s.body, at + [0], 0, Open(st), visible, t);
      var st1 := Close(Block(w, deadline, s.body, at + [0], 0, Open(st)), st.scope);
      assert Loop(w, deadline, s, at, 1, st1) == st1;
    } else {
      StepLooksExact(s, at, st, visible);
      var st1 := StepLooks(s, at, st);
      if OwnResolvable(s, visible) {
        if !Resolvable(s.thn, visible) {
          assert at + [0] <= t && t[|at|] == 0;
          BlockFaults(deadline, s.thn, at + [0], 0, Open(st1), visible, t);
        } else {
          assert at + [1] <= t && t[|at|] == 1;
          BlockFaults(deadline, s.els, at + [1], 0, Open(st1), visible, t);
        }
      }
    }
  }

  /** For every procedure with positive repeat counts: no run, under any
      world, ends on an unresolved name exactly when the check reports no
      scope error and every reference names an operation. */
  lemma UnresolvedExactly(p: Procedure, deadline: nat)
    requires PositiveCounts(p.steps) && deadline > 0
    ensures (forall w: World :: Run(w, deadline, p.steps).end != Unresolved)
         == (NoScopeError(ProcErrors(p)) && OperationRefs(p.steps, map[]))
  {
    ReportExact(p);
    var st := State(0, 0, 0, [map[]], [], Running);
    assert Agrees(st.scope, map[]);
    if Resolvable(p.steps, map[]) {
      forall w: World ensures Run(w, deadline, p.steps).end != Unresolved {
        BlockResolves(w, deadline, p.steps, [], 0, st, map[]);
      }
    } else {
      var t := FaultAddress(p.steps, [], 0, map[]);
      BlockFaults(deadline, p.steps, [], 0, st, map[], t);
      assert Run(Steer(t), deadline, p.steps).end == Unresolved;
    }
  }

  // ---- what a fault costs -----------------------------------------------------

  /** Whatever the world, a run that reaches a step breaking the lexical or the
      operation rule ends there, unresolved. */
  lemma FaultyStepEnds(w: World, deadline: nat, s: Step, at: Address, st: State, visible: Visible)
    requires st.scope != [] && st.end == Running && Agrees(st.scope, visible) && !OwnResolvable(s, visible)
    ensures Execute(w, deadline, s, at, st).end == Unresolved
  {
    assert !s.Repeat?;
    StepLooksExact(s, at, st, visible);
    LookAllKeepsScope(s, at, st);
  }

  /** Some such step lies on every way through the block. */
  ghost predicate MustFault(steps: seq<Step>, visible: Visible) {
    steps != []
    && (!OwnResolvable(steps[0], visible) || NestedMustFault(steps[0], visible)
        || MustFault(steps[1..], visible[steps[0].id := KindOf(steps[0])]))
  }

  ghost predicate NestedMustFault(s: Step, visible: Visible) {
    match s
    case If(_, _, thn, els) => MustFault(thn, visible) && MustFault(els, visible)
    case Repeat(_, count, body) => count > 0 && MustFault(body, visible)
    case _ => false
  }

  /** Then no run completes. */
  lemma {:induction false} NeverCompletes(w: World, deadline: nat, steps: seq<Step>, at: Address, i: nat,
                                          st: State, visible: Visible)
    requires st.scope != [] && Agrees(st.scope, visible) && MustFault(steps, visible)
    ensures Block(w, deadline, steps, at, i, st).end != Running
    decreases steps
  {
    var s, here := steps[0], at + [i];
    var st1 := Wait(st, w(s, here).gap);
    if st.end == Running && st1.now < deadline {
      var st2 := Execute(w, deadline, s, here, st1);
      if !OwnResolvable(s, visible) {
        FaultyStepEnds(w, deadline, s, here, st1, visible);
      } else if NestedMustFault(s, visible) {
        NestedNeverCompletes(w, deadline, s, here, st1, visible);
      } else {
        BindAgrees(st2.scope, visible, s.id, Binding(KindOf(s), here));
        NeverCompletes(w, deadline, steps[1..], at, i + 1, Record(s, here, st2), visible[s.id := KindOf(s)]);
      }
    }
  }

  lemma {:induction false} NestedNeverCompletes(w: World, deadline: nat, s: Step, at: Address, st: State,
                                                visible: Visible)
    requires st.scope != [] && st.end == Running && Agrees(st.scope, visible) && NestedMustFault(s, visible)
    ensures Execute(w, deadline, s, at, st).end != Running
    decreases s
  {
    LookAllKeepsScope(s, at, st);
    OpenAgrees(st.scope, visible);
    if s.Repeat? {
      NeverCompletes(w, deadline, s.body, at + [0], 0, Open(st), visible);
      var st1 := Close(Block(w, deadline, s.body, at + [0], 0, Open(st)), st.scope);
      assert Loop(w, deadline, s, at, 1, st1) == st1;
    } else {
      var st1 := StepLooks(s, at, st);
      NeverCompletes(w, deadline, s.thn, at + [0], 0, Open(st1), visible);
      NeverCompletes(w, deadline, s.els, at + [1], 0, Open(st1), visible);
    }
  }

  const PAUSE := Delay("pause", 1)
  const SET := Invoke("set", "psu", Ref("pause"), 1)

  /** The static check is clean although a reference names a delay: no run of
      this procedure completes, and some run ends unresolved. */
  lemma NonOperationReferenceIsClean(deadline: nat)
    requires deadline > 0
    ensures var p := Procedure(["psu"], [PAUSE, SET], 100);
            && ProcErrors(p) == [] && !OperationRefs(p.steps, map[])
            && (forall w: World :: Run(w, deadline, p.steps).end != Running)
            && (exists w: World :: Run(w, deadline, p.steps).end == Unresolved)
  {
    var p := Procedure(["psu"], [PAUSE, SET], 100);
    var visible: Visible := map["pause" := DelayKind];
    assert p.steps[1..] == [SET] && [SET][1..] == [] && map["pause" := KindOf(PAUSE)] == visible;
    assert "pause" in StepRefs(SET);
    StepRefsExactly(SET, "pause");
    assert !OwnResolvable(SET, visible) && !OperationRefs([SET], visible);
    SetIsClean(visible);
    assert StepPositive(SET) && StepPositive(PAUSE) && PositiveCounts([SET][1..]) && PositiveCounts([SET]);
    assert PositiveCounts(p.steps);
    UnresolvedExactly(p, deadline);
    forall w: World ensures Run(w, deadline, p.steps).end != Running {
      NeverCompletes(w, deadline, p.steps, [], 0, State(0, 0, 0, [map[]], [], Running), map[]);
    }
  }

  lemma OwnClean(s: Step, visible: Visible, ids: set<string>)
    requires (s == PAUSE && ids == {}) || (s == SET && ids == {"pause"} && "pause" in visible)
    ensures OwnErrors(s, visible, ids, {"psu"}) == []
  {
    assert ["pause"][1..] == [] && |"set"| != |"pause"|;
    assert "pause" in visible ==> RefErrors(["pause"], visible) == [];
    assert IdentityErrors(s, ids, {"psu"}) == [];
    assert s == SET ==> StepRefs(s) == ["pause"];
    assert RefErrors(StepRefs(s), visible) == [];
    assert SampleErrors(s, visible) == [] && PredicateErrors(s, visible) == [];
  }

  lemma SetIsClean(visible: Visible)
    requires visible == map["pause" := DelayKind]
    ensures ProcErrors(Procedure(["psu"], [PAUSE, SET], 100)) == []
  {
    hide OwnErrors;
    var roles := RoleSet(["psu"]);
    assert roles == {"psu"};
    assert [PAUSE, SET][1..] == [SET] && [SET][1..] == [];
    OwnClean(PAUSE, map[], {});
    OwnClean(SET, visible, {"pause"});
    assert StepErrors(SET, visible, {"pause"}, roles) == [] && StepErrors(PAUSE, map[], {}, roles) == [];
    assert BlockErrors([SET], visible, {"pause"}, roles) == [];
    assert map["pause" := KindOf(PAUSE)] == visible && NestedIds(PAUSE, {} + {"pause"}) == {"pause"};
    assert BlockErrors([PAUSE, SET], map[], {}, roles) == [];
    assert Bound([SET]) == 1 && Bound([PAUSE, SET]) == 2;
  }

  // ---- what a clean report guarantees of every read --------------------------

  /** Every name a run looked up was bound; a sample source was bound by an
      invoke and a predicate's sample by a sample. */
  ghost predicate AllFound(trace: seq<Event>) {
    forall e :: e in trace && e.Looked? ==> e.found.Some? && (e.need.NeedResult? || Serves(e.found, e.need))
  }

  lemma {:induction false} LookAllFound(names: seq<string>, need: Need, at: Address, st: State, visible: Visible)
    requires Agrees(st.scope, visible) && AllFound(st.trace)
    requires forall n :: n in names ==> n in visible
    requires !need.NeedResult? ==> forall n :: n in names ==> Serves(Lookup(st.scope, n), need)
    ensures AllFound(LookAll(names, need, at, st).trace)
    decreases names
  {
    if names != [] && st.end == Running {
      assert names == [names[0]] + names[1..];
      var found := Lookup(st.scope, names[0]);
      assert names[0] in names;
      LookAllFound(names[1..], need, at,
                   st.(trace := st.trace + [Looked(names[0], need, at, found)],
                       end := if Serves(found, need) then Running else Unresolved), visible);
    }
  }

  lemma StepLooksFound(s: Step, at: Address, st: State, visible: Visible)
    requires Agrees(st.scope, visible) && AllFound(st.trace) && OwnScopeClean(s, visible)
    ensures AllFound(StepLooks(s, at, st).trace)
  {
    if s.Sample? { LookAllFound([s.source], NeedInvoke, at, st, visible); }
    else if s.If? || s.Assert? { LookAllFound([s.pred.sample], NeedSample, at, st, visible); }
    else {
      forall r { StepRefsExactly(s, r); }
      LookAllFound(StepRefs(s), NeedResult, at, st, visible);
    }
  }

  lemma {:induction false} BlockFound(w: World, deadline: nat, steps: seq<Step>, at: Address, i: nat,
                                      st: State, visible: Visible)
    requires st.scope != [] && Agrees(st.scope, visible) && ScopeClean(steps, visible) && AllFound(st.trace)
    ensures AllFound(Block(w, deadline, steps, at, i, st).trace)
    decreases steps, 0
  {
    if steps != [] && st.end == Running {
      var s, here := steps[0], at + [i];
      var st1 := Wait(st, w(s, here).gap);
      if st1.now < deadline {
        var st2 := Execute(w, deadline, s, here, st1);
        ExecuteFound(w, deadline, s, here, st1, visible);
        var st3 := Record(s, here, st2);
        BindAgrees(st2.scope, visible, s.id, Binding(KindOf(s), here));
        BlockFound(w, deadline, steps[1..], at, i + 1, st3, visible[s.id := KindOf(s)]);
      }
    }
  }

  lemma {:induction false} ExecuteFound(w: World, deadline: nat, s: Step, at: Address, st: State, visible: Visible)
    requires st.scope != [] && st.end == Running && Agrees(st.scope, visible) && AllFound(st.trace)
    requires OwnScopeClean(s, visible) && NestedScopeClean(s, visible)
    ensures AllFound(Execute(w, deadline, s, at, st).trace)
    decreases s, 0
  {
    LookAllKeepsScope(s, at, st);
    OpenAgrees(st.scope, visible);
    if s.Repeat? {
      LoopFound(w, deadline, s, at, 0, st, visible);
    } else {
      StepLooksFound(s, at, st, visible);
      var st1 := StepLooks(s, at, st);
      if st1.end == Running && s.If? {
        BlockFound(w, deadline, s.thn, at + [0], 0, Open(st1), visible);
        BlockFound(w, deadline, s.els, at + [1], 0, Open(st1), visible);
      }
    }
  }

  lemma {:induction false} LoopFound(w: World, deadline: nat, s: Step, at: Address, k: nat, st: State, visible: Visible)
    requires s.Repeat? && k <= s.count && st.scope != []
    requires Agrees(st.scope, visible) && ScopeClean(s.body, visible) && AllFound(st.trace)
    ensures AllFound(Loop(w, deadline, s, at, k, st).trace)
    decreases s.body, 1, s.count - k
  {
    if k < s.count && st.end == Running {
      OpenAgrees(st.scope, visible);
      BlockFound(w, deadline, s.body, at + [k], 0, Open(st), visible);
      LoopFound(w, deadline, s, at, k + 1, Close(Block(w, deadline, s.body, at + [k], 0, Open(st)), st.scope), visible);
    }
  }

  // ---- where a found result came from ----------------------------------------

  /** `b` is an earlier sibling of `a` or of a step enclosing it, in the same
      branch and the same iteration. */
  predicate Precedes(b: Address, a: Address) {
    0 < |b| <= |a| && b[..|b| - 1] == a[..|b| - 1] && b[|b| - 1] < a[|b| - 1]
  }

  /** Every result a run read was recorded earlier in the same run by a step
      that lexically precedes its reader. */
  ghost predicate Provenance(trace: seq<Event>) {
    forall n :: 0 <= n < |trace| && trace[n].Looked? && trace[n].found.Some? ==>
      Ran(trace[n].name, trace[n].found.value) in trace[..n] && Precedes(trace[n].found.value.at, trace[n].reader)
  }

  /** Every result in scope was recorded, by a step that precedes `a`. */
  ghost predicate Placed(scope: Scope, trace: seq<Event>, a: Address) {
    forall name :: Lookup(scope, name).Some? ==>
      Ran(name, Lookup(scope, name).value) in trace && Precedes(Lookup(scope, name).value.at, a)
  }

  lemma PrecedesExtended(b: Address, a: Address, x: Address)
    requires Precedes(b, a) && a <= x
    ensures Precedes(b, x)
  {
    assert x[..|a|] == a;
    assert x[..|b| - 1] == x[..|a|][..|b| - 1];
  }

  lemma PrecedesNext(b: Address, at: Address, i: nat)
    requires Precedes(b, at + [i])
    ensures Precedes(b, at + [i + 1])
  {
    assert |b| <= |at| + 1;
    assert (at + [i + 1])[..|b| - 1] == (at + [i])[..|b| - 1];
  }

  lemma ProvenanceAppend(trace: seq<Event>, e: Event)
    requires Provenance(trace)
    requires e.Looked? && e.found.Some? ==> Ran(e.name, e.found.value) in trace && Precedes(e.found.value.at, e.reader)
    ensures Provenance(trace + [e])
  {
    var t := trace + [e];
    forall n | 0 <= n < |t| && t[n].Looked? && t[n].found.Some?
      ensures Ran(t[n].name, t[n].found.value) in t[..n] && Precedes(t[n].found.value.at, t[n].reader)
    {
      assert t[..n] == trace[..n];
    }
    assert t[..|trace|] == trace;
  }

  lemma {:induction false} LookAllPlaced(names: seq<string>, need: Need, at: Address, st: State)
    requires Provenance(st.trace) && Placed(st.scope, st.trace, at)
    ensures Provenance(LookAll(names, need, at, st).trace) && st.trace <= LookAll(names, need, at, st).trace
    decreases names
  {
    if names != [] && st.end == Running {
      var found := Lookup(st.scope, names[0]);
      var e := Looked(names[0], need, at, found);
      ProvenanceAppend(st.trace, e);
      LookAllPlaced(names[1..], need, at,
                    st.(trace := st.trace + [e], end := if Serves(found, need) then Running else Unresolved));
    }
  }

  lemma StepLooksPlaced(s: Step, at: Address, st: State)
    requires Provenance(st.trace) && Placed(st.scope, st.trace, at)
    ensures Provenance(StepLooks(s, at, st).trace) && st.trace <= StepLooks(s, at, st).trace
  {
    if s.Sample? { LookAllPlaced([s.source], NeedInvoke, at, st); }
    else if s.If? || s.Assert? { LookAllPlaced([s.pred.sample], NeedSample, at, st); }
    else { LookAllPlaced(StepRefs(s), NeedResult, at, st); }
  }

  lemma PlacedInside(scope: Scope, trace: seq<Event>, trace': seq<Event>, a: Address, x: Address)
    requires Placed(scope, trace, a) && trace <= trace' && a <= x
    ensures Placed([map[]] + scope, trace', x) && Placed(scope, trace', a)
  {
    forall name | Lookup([map[]] + scope, name).Some?
      ensures Ran(name, Lookup([map[]] + scope, name).value) in trace'
      ensures Precedes(Lookup([map[]] + scope, name).value.at, x)
    {
      LookupAfterOpen(scope, name);
      PrecedesExtended(Lookup(scope, name).value.at, a, x);
    }
  }

  lemma PlacedNext(scope: Scope, trace: seq<Event>, at: Address, i: nat, s: Step)
    requires scope != [] && Placed(scope, trace, at + [i])
    ensures var b := Binding(KindOf(s), at + [i]);
            Placed(Bind(scope, s.id, b), trace + [Ran(s.id, b)], at + [i + 1])
  {
    var b := Binding(KindOf(s), at + [i]);
    forall name | Lookup(Bind(scope, s.id, b), name).Some?
      ensures Ran(name, Lookup(Bind(scope, s.id, b), name).value) in trace + [Ran(s.id, b)]
      ensures Precedes(Lookup(Bind(scope, s.id, b), name).value.at, at + [i + 1])
    {
      LookupAfterBind(scope, s.id, b, name);
      if name == s.id {
        assert (at + [i])[..|at|] == at == (at + [i + 1])[..|at|];
      } else {
        PrecedesNext(Lookup(scope, name).value.at, at, i);
      }
    }
  }

  lemma {:induction false} BlockPlaced(w: World, deadline: nat, steps: seq<Step>, at: Address, i: nat, st: State)
    requires st.scope != [] && Provenance(st.trace) && Placed(st.scope, st.trace, at + [i])
    ensures Provenance(Block(w, deadline, steps, at, i, st).trace)
    ensures st.trace <= Block(w, deadline, steps, at, i, st).trace
    decreases steps, 0
  {
    if steps != [] && st.end == Running {
      var s, here := steps[0], at + [i];
      var st1 := Wait(st, w(s, here).gap);
      if st1.now < deadline {
        var st2 := Execute(w, deadline, s, here, st1);
        ExecutePlaced(w, deadline, s, here, st1);
        var st3 := Record(s, here, st2);
        ProvenanceAppend(st2.trace, Ran(s.id, Binding(KindOf(s), here)));
        PlacedInside(st.scope, st.trace, st2.trace, here, here);
        PlacedNext(st2.scope, st2.trace, at, i, s);
        BlockPlaced(w, deadline, steps[1..], at, i + 1, st3);
      }
    }
  }

  lemma {:induction false} ExecutePlaced(w: World, deadline: nat, s: Step, at: Address, st: State)
    requires st.scope != [] && st.end == Running && Provenance(st.trace) && Placed(st.scope, st.trace, at)
    ensures Provenance(Execute(w, deadline, s, at, st).trace)
    ensures st.trace <= Execute(w, deadline, s, at, st).trace
    decreases s, 0
  {
    LookAllKeepsScope(s, at, st);
    if s.Repeat? {
      LoopPlaced(w, deadline, s, at, 0, st);
    } else {
      StepLooksPlaced(s, at, st);
      var st1 := StepLooks(s, at, st);
      if st1.end == Running && s.If? {
        PlacedInside(st.scope, st.trace, st1.trace, at, at + [0] + [0]);
        PlacedInside(st.scope, st.trace, st1.trace, at, at + [1] + [0]);
        BlockPlaced(w, deadline, s.thn, at + [0], 0, Open(st1));
        BlockPlaced(w, deadline, s.els, at + [1], 0, Open(st1));
      }
    }
  }

  lemma {:induction false} LoopPlaced(w: World, deadline: nat, s: Step, at: Address, k: nat, st: State)
    requires s.Repeat? && k <= s.count && st.scope != [] && Provenance(st.trace) && Placed(st.scope, st.trace, at)
    ensures Provenance(Loop(w, deadline, s, at, k, st).trace)
    ensures st.trace <= Loop(w, deadline, s, at, k, st).trace
    decreases s.body, 1, s.count - k
  {
    if k < s.count && st.end == Running {
      PlacedInside(st.scope, st.trace, st.trace, at, at + [k] + [0]);
      BlockPlaced(w, deadline, s.body, at + [k], 0, Open(st));
      var st1 := Close(Block(w, deadline, s.body, at + [k], 0, Open(st)), st.scope);
      PlacedInside(st.scope, st.trace, st1.trace, at, at);
      LoopPlaced(w, deadline, s, at, k + 1, st1);
    }
  }

  /** Scope soundness, for every run of every procedure: what is read was
      recorded earlier by a lexically preceding step of the same branch and
      iteration; and if the check reports no scope error nothing is missing
      and sources and predicates have the right kind. */
  lemma ScopeSoundness(p: Procedure, w: World, deadline: nat)
    ensures Provenance(Run(w, deadline, p.steps).trace)
    ensures NoScopeError(ProcErrors(p)) ==> AllFound(Run(w, deadline, p.steps).trace)
  {
    var st := State(0, 0, 0, [map[]], [], Running);
    ReportExact(p);
    BlockPlaced(w, deadline, p.steps, [], 0, st);
    if ScopeClean(p.steps, map[]) {
      BlockFound(w, deadline, p.steps, [], 0, st, map[]);
    }
  }
}
