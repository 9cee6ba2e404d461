/** The gateway's own semantic admission, compared with the document
    checker's walk and with what the executor then does. */
module ProductionAdmission {
  import opened Options
  import opened Procedures
  import opened StaticCheck
  import opened Executor
  import opened ScopeSoundness
  import opened BoundExactness

  datatype Documents = Documents(
    procedure: Procedure,
    overhead: nat,          // commissioned scheduling overhead, ms
    actions: seq<nat>,      // timeouts of the safe transition's actions, ms
    stableFor: nat,         // how long its result must then hold, ms
    transition: nat,        // safe transition max_duration_ms
    energised: seq<nat>)    // max_energised_ms of each policy domain

  datatype Refusal = DuplicateStepId | Scope | BodyBudget | EnergisedBudget

  /** One step with the names admission lets it see. */
  datatype Visit = Visit(step: Step, visible: set<string>)

  /** The names a step reads. */
  function Targets(s: Step): seq<string> {
    if s.Sample? then [s.source]
    else if s.If? || s.Assert? then [s.pred.sample]
    else StepRefs(s)
  }

  /** The walk: unlike the executor, a container counts as visible inside its
      own body; every iteration is walked again. */
  function Walk(steps: seq<Step>, visible: set<string>): seq<Visit>
    decreases steps, 0
  {
    if steps == [] then []
    else [Visit(steps[0], visible)] + WalkNested(steps[0], visible + {steps[0].id})
         + Walk(steps[1..], visible + {steps[0].id})
  }

  function WalkNested(s: Step, visible: set<string>): seq<Visit>
    decreases s, 1
  {
    match s
    case If(_, _, thn, els) => Walk(thn, visible) + Walk(els, visible)
    case Repeat(_, count, body) => WalkIterations(s, count, visible)
    case _ => []
  }

  function WalkIterations(s: Step, n: nat, visible: set<string>): seq<Visit>
    requires s.Repeat?
    decreases s, 0, n
  {
    if n == 0 then [] else Walk(s.body, visible) + WalkIterations(s, n - 1, visible)
  }

  predicate Sees(v: Visit) {
    forall t :: t in Targets(v.step) ==> t in v.visible
  }

  predicate WalkOk(steps: seq<Step>, visible: set<string>) {
    forall v :: v in Walk(steps, visible) ==> Sees(v)
  }

  function MinOf(xs: seq<nat>): (m: nat)
    requires xs != []
    ensures m in xs && forall x :: x in xs ==> m <= x
  {
    if |xs| == 1 then xs[0]
    else
      var m := MinOf(xs[1..]);
      assert xs == [xs[0]] + xs[1..];
      if xs[0] <= m then xs[0] else m
  }

  function CheckSemantics(d: Documents): Option<Refusal>
    requires d.energised != []
  {
    if !Distinct(CollectIds(d.procedure.steps)) then Some(DuplicateStepId)
    else if !WalkOk(d.procedure.steps, {}) then Some(Scope)
    else if Bound(d.procedure.steps) + d.overhead > d.procedure.maxBody then Some(BodyBudget)
    else if d.procedure.maxBody + d.transition > MinOf(d.energised) then Some(EnergisedBudget)
    else None
  }

  // ---- the budgets -------------------------------------------------------------

  /** The document checker's own budgets: body with overhead, body with safe
      transition in every domain, and the transition's parts in the whole. */
  predicate DocumentBudgets(d: Documents) {
    && Bound(d.procedure.steps) + d.overhead <= d.procedure.maxBody
    && (forall e :: e in d.energised ==> d.procedure.maxBody + d.transition <= e)
    && Total(d.actions) + d.stableFor <= d.transition
  }

  function Total(parts: seq<nat>): nat {
    if parts == [] then 0 else parts[0] + Total(parts[1..])
  }

  lemma {:induction false} TotalAdds(a: seq<nat>, x: nat)
    ensures Total([]) == 0 && Total(a + [x]) == Total(a) + x
  {
    if a != [] {
      assert (a + [x])[1..] == a[1..] + [x];
      TotalAdds(a[1..], x);
    }
  }

  lemma {:induction false} TotalAtMost(taken: seq<nat>, limits: seq<nat>)
    requires |taken| == |limits| && forall i :: 0 <= i < |taken| ==> taken[i] <= NS_PER_MS * limits[i]
    ensures Total(taken) <= NS_PER_MS * Total(limits)
  {
    if taken != [] {
      TotalAtMost(taken[1..], limits[1..]);
    }
  }

  /** The gateway's two budget checks are the document checker's first two. */
  lemma BudgetsAgree(d: Documents)
    requires d.energised != [] && Distinct(CollectIds(d.procedure.steps)) && WalkOk(d.procedure.steps, {})
    requires Total(d.actions) + d.stableFor <= d.transition
    ensures CheckSemantics(d) == None <==> DocumentBudgets(d)
  {
    assert forall e :: e in d.energised ==> MinOf(d.energised) <= e;
  }

  /** A procedure within its budgets fits: every timely run whose host time
      stays within the commissioned overhead ends within max_body_ms, and the
      safe transition that follows, each action within its timeout, is over
      within every domain's energised limit. */
  lemma AdmittedFits(d: Documents, w: World, deadline: nat, taken: seq<nat>)
    requires DocumentBudgets(d)
    requires Timely(w) && Run(w, deadline, d.procedure.steps).gap <= NS_PER_MS * d.overhead
    requires |taken| == |d.actions| && forall i :: 0 <= i < |taken| ==> taken[i] <= NS_PER_MS * d.actions[i]
    ensures Run(w, deadline, d.procedure.steps).now <= NS_PER_MS * d.procedure.maxBody
    ensures forall e :: e in d.energised ==>
      Run(w, deadline, d.procedure.steps).now + Total(taken) + NS_PER_MS * d.stableFor <= NS_PER_MS * e
  {
    BoundSound(d.procedure.steps, w, deadline);
    TotalAtMost(taken, d.actions);
  }

  function BodyDeadline(p: Procedure): nat {
    NS_PER_MS * p.maxBody
  }

  ghost predicate AdmittedButMayTimeOut(d: Documents) {
    && d.energised != [] && CheckSemantics(d) == None
    && !NeverTimesOut(d.procedure.steps, BodyDeadline(d.procedure), NS_PER_MS * d.overhead)
  }

  /** Where the walks stand on a block of one step. */
  lemma OneStep(s: Step, seen: set<string>, visible: Visible, open: set<string>)
    ensures CollectIds([s]) == StepIds(s) && Bound([s]) == StepBound(s) && LatestStart([s]) == StepLatestStart(s)
    ensures PositiveCounts([s]) == StepPositive(s)
    ensures Walk([s], seen) == [Visit(s, seen)] + WalkNested(s, seen + {s.id})
    ensures ScopeClean([s], visible) == (OwnScopeClean(s, visible) && NestedScopeClean(s, visible))
    ensures Disciplined([s], visible, open)
         == (OwnDisciplined(s, visible, open) && NestedDisciplined(s, visible, open + {s.id}))
  {
    assert [s][1..] == [];
  }

  const MEASURE := Invoke("measure", "meter", Scalar, 100)
  const VOLTS := Sample("volts", "measure")

  lemma TightWalk()
    ensures Distinct(CollectIds([MEASURE, VOLTS])) && WalkOk([MEASURE, VOLTS], {})
  {
    assert [MEASURE, VOLTS][1..] == [VOLTS];
    OneStep(VOLTS, {} + {"measure"}, map[], {});
    assert Walk([MEASURE, VOLTS], {}) == [Visit(MEASURE, {}), Visit(VOLTS, {} + {"measure"})];
  }

  lemma TightCost()
    ensures Bound([MEASURE, VOLTS]) == 100 && LatestStart([MEASURE, VOLTS]) == 100
  {
    assert [MEASURE, VOLTS][1..] == [VOLTS];
    OneStep(VOLTS, {}, map[], {});
  }

  lemma TightResolves()
    ensures Resolvable([MEASURE, VOLTS], map[])
  {
    assert [MEASURE, VOLTS][1..] == [VOLTS];
    var visible: Visible := map["measure" := InvokeKind];
    OneStep(VOLTS, {}, visible, {});
    assert OwnScopeClean(VOLTS, visible);
    assert [VOLTS][1..] == [] && OperationRefs([VOLTS], visible);
    assert map["measure" := KindOf(MEASURE)] == visible;
  }

  /** The budget inequality does not by itself keep a body clear of its own
      deadline check, which fires on equality: this admitted procedure has a
      timely run that ends timed out before its last step. */
  lemma BudgetMayStillTimeOut()
    ensures exists d: Documents :: AdmittedButMayTimeOut(d)
  {
    var steps := [MEASURE, VOLTS];
    var d := Documents(Procedure(["meter"], steps, 100), 0, [40], 10, 50, [150]);
    TightWalk();
    TightCost();
    TightResolves();
    DeadlineExactly(steps, BodyDeadline(d.procedure), 0);
    assert AdmittedButMayTimeOut(d);
  }

  /** Exactly when it does: the latest start plus the overhead, not the bound
      plus the overhead, must stay below max_body_ms. */
  lemma AdmittedMeetsDeadlineExactly(d: Documents)
    requires d.energised != [] && d.procedure.steps != [] && Resolvable(d.procedure.steps, map[])
    ensures NeverTimesOut(d.procedure.steps, BodyDeadline(d.procedure), NS_PER_MS * d.overhead)
         == (LatestStart(d.procedure.steps) + d.overhead < d.procedure.maxBody)
  {
    DeadlineExactly(d.procedure.steps, BodyDeadline(d.procedure), NS_PER_MS * d.overhead);
  }

  // ---- the scope walk -----------------------------------------------------------

  /** The walk's verdict as one recursion over the tree. */
  predicate ProductionClean(steps: seq<Step>, visible: set<string>) {
    steps == []
    || (Sees(Visit(steps[0], visible))
        && NestedProductionClean(steps[0], visible + {steps[0].id})
        && ProductionClean(steps[1..], visible + {steps[0].id}))
  }

  predicate NestedProductionClean(s: Step, visible: set<string>) {
    match s
    case If(_, _, thn, els) => ProductionClean(thn, visible) && ProductionClean(els, visible)
    case Repeat(_, _, body) => ProductionClean(body, visible)
    case _ => true
  }

  lemma {:induction false} WalkExact(steps: seq<Step>, visible: set<string>)
    requires PositiveCounts(steps)
    ensures WalkOk(steps, visible) == ProductionClean(steps, visible)
    decreases steps, 0
  {
    if steps != [] {
      var s, seen := steps[0], visible + {steps[0].id};
      var first, nested, rest := [Visit(s, visible)], WalkNested(s, seen), Walk(steps[1..], seen);
      assert Walk(steps, visible) == first + nested + rest;
      assert forall v :: v in Walk(steps, visible) <==> v == first[0] || v in nested || v in rest;
      WalkNestedExact(s, seen);
      WalkExact(steps[1..], seen);
    }
  }

  /** Each refusal is given exactly if it is the first that applies. */
  lemma AdmissionExactly(d: Documents)
    requires d.energised != [] && PositiveCounts(d.procedure.steps)
    ensures var r, p := CheckSemantics(d), d.procedure;
      var distinct, clean := Distinct(CollectIds(p.steps)), ProductionClean(p.steps, {});
      var inBody, inDomains := Bound(p.steps) + d.overhead <= p.maxBody,
                               forall e :: e in d.energised ==> p.maxBody + d.transition <= e;
      && (r == Some(DuplicateStepId) <==> !distinct)
      && (r == Some(Scope) <==> distinct && !clean)
      && (r == Some(BodyBudget) <==> distinct && clean && !inBody)
      && (r == Some(EnergisedBudget) <==> distinct && clean && inBody && !inDomains)
      && (r == None <==> distinct && clean && inBody && inDomains)
  {
    WalkExact(d.procedure.steps, {});
    hide Distinct, CollectIds, ProductionClean, WalkOk, Bound;
  }

  lemma {:induction false} WalkNestedExact(s: Step, visible: set<string>)
    requires StepPositive(s)
    ensures (forall v :: v in WalkNested(s, visible) ==> Sees(v)) == NestedProductionClean(s, visible)
    decreases s, 1
  {
    match s {
      case If(_, _, thn, els) =>
        WalkExact(thn, visible);
        WalkExact(els, visible);
        var all := Walk(thn, visible) + Walk(els, visible);
        assert forall v :: v in all <==> v in Walk(thn, visible) || v in Walk(els, visible);
      case Repeat(_, count, body) =>
        WalkExact(body, visible);
        IterationsVisitTheSame(s, count, visible);
      case _ =>
    }
  }

  /** Walking a body again visits nothing new. */
  lemma {:induction false} IterationsVisitTheSame(s: Step, n: nat, visible: set<string>)
    requires s.Repeat? && n > 0
    ensures forall v :: v in WalkIterations(s, n, visible) <==> v in Walk(s.body, visible)
    decreases n
  {
    if n > 1 {
      IterationsVisitTheSame(s, n - 1, visible);
    }
  }

  /** What the gateway's walk does not ask: no step reads a container it sits
      in, samples read invokes, predicates read samples. */
  predicate Disciplined(steps: seq<Step>, visible: Visible, open: set<string>) {
    steps == []
    || (OwnDisciplined(steps[0], visible, open)
        && NestedDisciplined(steps[0], visible, open + {steps[0].id})
        && Disciplined(steps[1..], visible[steps[0].id := KindOf(steps[0])], open))
  }

  predicate OwnDisciplined(s: Step, visible: Visible, open: set<string>) {
    && (forall t :: t in Targets(s) ==> t !in open)
    && (s.Sample? && s.source in visible ==> visible[s.source].InvokeKind?)
    && (s.If? || s.Assert? ==> s.pred.sample in visible ==> visible[s.pred.sample].SampleKind?)
  }

  predicate NestedDisciplined(s: Step, visible: Visible, open: set<string>) {
    match s
    case If(_, _, thn, els) => Disciplined(thn, visible, open) && Disciplined(els, visible, open)
    case Repeat(_, _, body) => Disciplined(body, visible, open)
    case _ => true
  }

  lemma {:induction false} ScopeVersusWalk(steps: seq<Step>, visible: Visible, open: set<string>)
    requires visible.Keys !! open && Fresh(CollectIds(steps), visible.Keys + open)
    ensures ScopeClean(steps, visible)
         == (ProductionClean(steps, visible.Keys + open) && Disciplined(steps, visible, open))
    decreases steps, 1
  {
    if steps != [] {
      var s, rest := steps[0], steps[1..];
      var visible' := visible[s.id := KindOf(s)];
      var all := visible.Keys + open;
      assert s.id == StepIds(s)[0] == CollectIds(steps)[0];
      FreshSplit(StepIds(s), CollectIds(rest), all, all + set x | x in StepIds(s));
      OwnVersusWalk(s, visible, open);
      NestedVersusWalk(s, visible, open);
      assert visible'.Keys + open == all + {s.id} == visible.Keys + (open + {s.id});
      ScopeVersusWalk(rest, visible', open);
    }
  }

  lemma OwnVersusWalk(s: Step, visible: Visible, open: set<string>)
    requires visible.Keys !! open
    ensures OwnScopeClean(s, visible)
         == (Sees(Visit(s, visible.Keys + open)) && OwnDisciplined(s, visible, open))
  {
    if s.Sample? { assert s.source in Targets(s); }
    else if s.If? || s.Assert? { assert s.pred.sample in Targets(s); }
    else { forall r { StepRefsExactly(s, r); } }
  }

  lemma {:induction false} NestedVersusWalk(s: Step, visible: Visible, open: set<string>)
    requires visible.Keys !! open && Fresh(StepIds(s), visible.Keys + open)
    ensures NestedScopeClean(s, visible)
         == (NestedProductionClean(s, visible.Keys + (open + {s.id})) && NestedDisciplined(s, visible, open + {s.id}))
    decreases s, 0
  {
    var all, inner := visible.Keys + open, open + {s.id};
    assert s.id == StepIds(s)[0];
    assert visible.Keys + inner == all + {s.id};
    match s {
      case If(id, _, thn, els) =>
        FreshSplit([id] + CollectIds(thn), CollectIds(els), all, all + {id} + set x | x in CollectIds(thn));
        FreshSplit([id], CollectIds(thn), all, all + {id});
        ScopeVersusWalk(thn, visible, inner);
        ScopeVersusWalk(els, visible, inner);
      case Repeat(id, _, body) =>
        FreshSplit([id], CollectIds(body), all, all + {id});
        ScopeVersusWalk(body, visible, inner);
      case _ =>
    }
  }

  /** On distinct identifiers, the document checker's scope verdict is the
      gateway's plus the discipline the gateway leaves to run time. */
  lemma CheckersAgreeExactly(p: Procedure)
    requires PositiveCounts(p.steps) && Distinct(CollectIds(p.steps))
    ensures NoScopeError(ProcErrors(p)) == (WalkOk(p.steps, {}) && Disciplined(p.steps, map[], {}))
  {
    ReportExact(p);
    WalkExact(p.steps, {});
    var empty: Visible := map[];
    assert empty.Keys + {} == {};
    ScopeVersusWalk(p.steps, empty, {});
  }

  /** So a procedure the gateway admits never ends on an unresolved name
      exactly when it keeps that discipline and references operations only. */
  lemma AdmittedResolvesExactly(d: Documents, deadline: nat)
    requires d.energised != [] && CheckSemantics(d) == None && PositiveCounts(d.procedure.steps) && deadline > 0
    ensures (forall w: World :: Run(w, deadline, d.procedure.steps).end != Unresolved)
         == (Disciplined(d.procedure.steps, map[], {}) && OperationRefs(d.procedure.steps, map[]))
  {
    CheckersAgreeExactly(d.procedure);
    UnresolvedExactly(d.procedure, deadline);
  }

  ghost predicate AdmittedButUndisciplined(d: Documents) {
    && d.energised != [] && CheckSemantics(d) == None && PositiveCounts(d.procedure.steps)
    && !Disciplined(d.procedure.steps, map[], {})
  }

  const INNER := Invoke("set", "psu", Ref("loop"), 10)
  const OUTER := Repeat("loop", 1, [INNER])

  lemma OuterIsAdmitted(d: Documents)
    requires d == Documents(Procedure(["psu"], [OUTER], 100), 0, [40], 10, 50, [200])
    ensures AdmittedButUndisciplined(d)
  {
    OneStep(OUTER, {}, map[], {});
    OneStep(INNER, {} + {"loop"}, map[], {} + {"loop"});
    assert Targets(INNER) == ["loop"] && "loop" in Targets(INNER);
    assert WalkIterations(OUTER, 0, {} + {"loop"}) == [];
    assert Walk([OUTER], {}) == [Visit(OUTER, {}), Visit(INNER, {} + {"loop"})];
    assert Sees(Visit(INNER, {} + {"loop"}));
  }

  lemma OuterMustFault()
    ensures MustFault([OUTER], map[])
  {
    assert "loop" in StepRefs(INNER);
    StepRefsExactly(INNER, "loop");
    assert !OwnResolvable(INNER, map[]);
    assert MustFault([INNER], map[]);
  }

  /** The discipline is not implied: the gateway admits a reference to the
      loop around it, and no run of the procedure completes. */
  lemma EnclosingContainerAdmitted()
    ensures exists d: Documents :: AdmittedButUndisciplined(d)
              && forall w: World, deadline: nat :: Run(w, deadline, d.procedure.steps).end != Running
  {
    var d := Documents(Procedure(["psu"], [OUTER], 100), 0, [40], 10, 50, [200]);
    OuterIsAdmitted(d);
    OuterMustFault();
    hide MustFault, AdmittedButUndisciplined, Block;
    forall w: World, deadline: nat ensures Run(w, deadline, d.procedure.steps).end != Running {
      NeverCompletes(w, deadline, [OUTER], [], 0, State(0, 0, 0, [map[]], [], Running), map[]);
    }
  }
}
