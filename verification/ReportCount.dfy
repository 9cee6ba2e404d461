/** How often the document checker reports each error: every error of the
    report traced back to the steps at fault. */
module ReportCount {
  import opened Procedures
  import opened StaticCheck

  lemma {:induction false} RefErrorsAppend(names: seq<string>, last: string, visible: Visible)
    ensures RefErrors(names + [last], visible)
         == RefErrors(names, visible) + (if last in visible then [] else [ReferenceScope])
  {
    if names == [] {
      assert [last][1..] == [];
      assert RefErrors([last], visible) == (if last in visible then [] else [ReferenceScope]) + RefErrors([], visible);
    } else {
      assert (names + [last])[1..] == names[1..] + [last];
      RefErrorsAppend(names[1..], last, visible);
      var first := if names[0] in visible then [] else [ReferenceScope];
      assert RefErrors(names + [last], visible) == first + RefErrors(names[1..] + [last], visible);
      Assoc(first, RefErrors(names[1..], visible), if last in visible then [] else [ReferenceScope]);
    }
  }

  /** The places of a list whose name is not visible. */
  function Unseen(names: seq<string>, visible: Visible): set<int> {
    set i | 0 <= i < |names| && names[i] !in visible
  }

  /** One error per unseen name. */
  lemma {:induction false} RefErrorsCounted(names: seq<string>, visible: Visible)
    ensures |RefErrors(names, visible)| == |Unseen(names, visible)|
    ensures forall i :: 0 <= i < |RefErrors(names, visible)| ==> RefErrors(names, visible)[i] == ReferenceScope
    decreases |names|
  {
    if names != [] {
      var n := |names| - 1;
      RefErrorsCounted(names[..n], visible);
      RefErrorsAppend(names[..n], names[n], visible);
      assert names == names[..n] + [names[n]];
      assert Unseen(names, visible) == Unseen(names[..n], visible) + (if names[n] in visible then {} else {n});
    }
  }

  function Once(fault: bool): nat {
    if fault then 1 else 0
  }

  predicate UndeclaredRole(s: Step, roles: set<string>) {
    (s.Invoke? || s.Read? || s.Write? || s.Capture?) && s.role !in roles
  }

  predicate WrongSource(s: Step, visible: Visible) {
    s.Sample? && (s.source in visible ==> !visible[s.source].InvokeKind?)
  }

  predicate WrongSample(s: Step, visible: Visible) {
    (s.If? || s.Assert?) && (s.pred.sample in visible ==> !visible[s.pred.sample].SampleKind?)
  }

  predicate Inverted(s: Step) {
    (s.If? || s.Assert?) && s.pred.minimum > s.pred.maximum
  }

  /** How often one step by itself is at fault. */
  function OwnFaults(e: Error, s: Step, visible: Visible, roles: set<string>): nat {
    match e
    case UnknownRole => Once(UndeclaredRole(s, roles))
    case ReferenceScope => |Unseen(StepRefs(s), visible)|
    case SampleSource => Once(WrongSource(s, visible))
    case PredicateScope => Once(WrongSample(s, visible))
    case BoundsOrder => Once(Inverted(s))
    case _ => 0
  }

  function Faults(e: Error, steps: seq<Step>, visible: Visible, roles: set<string>): nat
    decreases steps
  {
    if steps == [] then 0
    else
      var s := steps[0];
      OwnFaults(e, s, visible, roles) + NestedFaults(e, s, visible, roles)
      + Faults(e, steps[1..], visible[s.id := KindOf(s)], roles)
  }

  function NestedFaults(e: Error, s: Step, visible: Visible, roles: set<string>): nat
    decreases s
  {
    match s
    case If(_, _, thn, els) => Faults(e, thn, visible, roles) + Faults(e, els, visible, roles)
    case Repeat(_, _, body) => Faults(e, body, visible, roles)
    case _ => 0
  }

  /** How often an error stands in a list. */
  function Count(errors: seq<Error>, e: Error): nat {
    multiset(errors)[e]
  }

  lemma CountJoined(a: seq<Error>, b: seq<Error>, e: Error)
    ensures Count(a + b, e) == Count(a, e) + Count(b, e)
  {}

  lemma CountNone(e: Error)
    ensures Count([], e) == 0
  {}

  lemma CountOne(fault: bool, f: Error, e: Error)
    ensures Count(if fault then [f] else [], e) == Once(fault && e == f)
  {}

  lemma {:induction false} CountOf(errors: seq<Error>, e: Error, f: Error)
    requires forall i :: 0 <= i < |errors| ==> errors[i] == f
    ensures Count(errors, e) == if e == f then |errors| else 0
    decreases |errors|
  {
    if errors != [] {
      var n := |errors| - 1;
      assert errors == errors[..n] + [errors[n]];
      CountOf(errors[..n], e, f);
    }
  }

  lemma IdentityCounted(e: Error, s: Step, ids: set<string>, roles: set<string>)
    ensures Count(IdentityErrors(s, ids, roles), e)
         == Once(s.id in ids && e == DuplicateStep) + Once(UndeclaredRole(s, roles) && e == UnknownRole)
  {
    hide Count;
    assert HasRole(s) && s.role !in roles <==> UndeclaredRole(s, roles);
    CountOne(s.id in ids, DuplicateStep, e);
    CountOne(UndeclaredRole(s, roles), UnknownRole, e);
    var first, last := if s.id in ids then [DuplicateStep] else [], if UndeclaredRole(s, roles) then [UnknownRole] else [];
    assert IdentityErrors(s, ids, roles) == first + last;
    hide *;
    CountJoined(first, last, e);
  }

  lemma SampleCounted(e: Error, s: Step, visible: Visible)
    ensures Count(SampleErrors(s, visible), e) == Once(WrongSource(s, visible) && e == SampleSource)
  {
    CountOne(WrongSource(s, visible), SampleSource, e);
  }

  lemma PredicateCounted(e: Error, s: Step, visible: Visible)
    ensures Count(PredicateErrors(s, visible), e)
         == Once(WrongSample(s, visible) && e == PredicateScope) + Once(Inverted(s) && e == BoundsOrder)
  {
    CountOne(WrongSample(s, visible), PredicateScope, e);
    CountOne(Inverted(s), BoundsOrder, e);
    var first, last := if WrongSample(s, visible) then [PredicateScope] else [], if Inverted(s) then [BoundsOrder] else [];
    assert PredicateErrors(s, visible) == first + last;
    hide *;
    CountJoined(first, last, e);
  }

  lemma OwnFaultsSummed(e: Error, s: Step, visible: Visible, roles: set<string>)
    ensures OwnFaults(e, s, visible, roles)
         == Once(UndeclaredRole(s, roles) && e == UnknownRole)
            + (if e == ReferenceScope then |Unseen(StepRefs(s), visible)| else 0)
            + Once(WrongSource(s, visible) && e == SampleSource)
            + Once(WrongSample(s, visible) && e == PredicateScope) + Once(Inverted(s) && e == BoundsOrder)
  {
    hide UndeclaredRole, Unseen, WrongSource, WrongSample, Inverted, StepRefs;
  }

  lemma OwnCounted(e: Error, s: Step, visible: Visible, ids: set<string>, roles: set<string>)
    ensures Count(OwnErrors(s, visible, ids, roles), e)
         == OwnFaults(e, s, visible, roles) + Once(s.id in ids && e == DuplicateStep)
  {
    var re := RefErrors(StepRefs(s), visible);
    var ie, se, pe := IdentityErrors(s, ids, roles), SampleErrors(s, visible), PredicateErrors(s, visible);
    RefErrorsCounted(StepRefs(s), visible);
    CountOf(re, e, ReferenceScope);
    IdentityCounted(e, s, ids, roles);
    SampleCounted(e, s, visible);
    PredicateCounted(e, s, visible);
    OwnFaultsSummed(e, s, visible, roles);
    assert OwnErrors(s, visible, ids, roles) == ie + (re + (se + pe));
    hide *;
    CountJoined(ie, re + (se + pe), e);
    CountJoined(re, se + pe, e);
    CountJoined(se, pe, e);
  }

  lemma StepJoined(e: Error, s: Step, steps: seq<Step>, visible: Visible, ids: set<string>, roles: set<string>)
    requires steps != []
    requires s == steps[0]
    ensures Count(BlockErrors(steps, visible, ids, roles), e)
         == Count(OwnErrors(s, visible, ids, roles), e) + Count(NestedErrors(s, visible, ids + {s.id}, roles), e)
            + Count(BlockErrors(steps[1..], visible[s.id := KindOf(s)], NestedIds(s, ids + {s.id}), roles), e)
  {
    var own, nested := OwnErrors(s, visible, ids, roles), NestedErrors(s, visible, ids + {s.id}, roles);
    var rest := BlockErrors(steps[1..], visible[s.id := KindOf(s)], NestedIds(s, ids + {s.id}), roles);
    CountJoined(own, nested, e);
    CountJoined(own + nested, rest, e);
  }

  lemma {:induction false} BlockCounted(e: Error, steps: seq<Step>, visible: Visible, ids: set<string>, roles: set<string>)
    requires e != DuplicateStep
    ensures Count(BlockErrors(steps, visible, ids, roles), e) == Faults(e, steps, visible, roles)
    decreases steps
  {
    if steps != [] {
      var s := steps[0];
      OwnCounted(e, s, visible, ids, roles);
      NestedCounted(e, s, visible, ids + {s.id}, roles);
      BlockCounted(e, steps[1..], visible[s.id := KindOf(s)], NestedIds(s, ids + {s.id}), roles);
      StepJoined(e, s, steps, visible, ids, roles);
    }
  }

  lemma {:induction false} NestedCounted(e: Error, s: Step, visible: Visible, ids: set<string>, roles: set<string>)
    requires e != DuplicateStep
    ensures Count(NestedErrors(s, visible, ids, roles), e) == NestedFaults(e, s, visible, roles)
    decreases s
  {
    hide BlockErrors, Faults, IdsAfter, Count;
    match s {
      case If(_, _, thn, els) =>
        BlockCounted(e, thn, visible, ids, roles);
        BlockCounted(e, els, visible, IdsAfter(thn, ids), roles);
        CountJoined(BlockErrors(thn, visible, ids, roles), BlockErrors(els, visible, IdsAfter(thn, ids), roles), e);
      case Repeat(_, _, body) => BlockCounted(e, body, visible, ids, roles);
      case _ => CountNone(e);
    }
  }

  /** Every step either has a new identifier or draws the duplicate error. */
  lemma {:induction false} DuplicatesCounted(steps: seq<Step>, visible: Visible, ids: set<string>, roles: set<string>)
    ensures |IdsAfter(steps, ids)| + Count(BlockErrors(steps, visible, ids, roles), DuplicateStep)
         == |ids| + |CollectIds(steps)|
    decreases steps
  {
    if steps != [] {
      var s, seen := steps[0], ids + {steps[0].id};
      assert s.id in ids ==> seen == ids;
      assert |seen| == |ids| + Once(s.id !in ids);
      assert IdsAfter(steps, ids) == IdsAfter(steps[1..], NestedIds(s, seen));
      assert CollectIds(steps) == StepIds(s) + CollectIds(steps[1..]);
      OwnCounted(DuplicateStep, s, visible, ids, roles);
      assert OwnFaults(DuplicateStep, s, visible, roles) == 0;
      NestedDuplicatesCounted(s, visible, seen, roles);
      DuplicatesCounted(steps[1..], visible[s.id := KindOf(s)], NestedIds(s, seen), roles);
      StepJoined(DuplicateStep, s, steps, visible, ids, roles);
      hide Count, OwnErrors, NestedErrors, BlockErrors, NestedIds, StepIds, IdsAfter, CollectIds, OwnFaults;
    }
  }

  lemma {:induction false} NestedDuplicatesCounted(s: Step, visible: Visible, ids: set<string>, roles: set<string>)
    ensures |NestedIds(s, ids)| + Count(NestedErrors(s, visible, ids, roles), DuplicateStep) + 1
         == |ids| + |StepIds(s)|
    decreases s
  {
    hide BlockErrors, IdsAfter, Count, CollectIds;
    match s {
      case If(_, _, thn, els) =>
        DuplicatesCounted(thn, visible, ids, roles);
        DuplicatesCounted(els, visible, IdsAfter(thn, ids), roles);
        CountJoined(BlockErrors(thn, visible, ids, roles), BlockErrors(els, visible, IdsAfter(thn, ids), roles),
                    DuplicateStep);
      case Repeat(_, _, body) => DuplicatesCounted(body, visible, ids, roles);
      case _ => CountNone(DuplicateStep);
    }
  }

  lemma DistinctFront(names: seq<string>, k: nat)
    requires |names| == k + 1
    ensures Distinct(names) <==> Distinct(names[..k]) && names[k] !in names[..k]
  {
    assert forall i :: 0 <= i < k ==> names[..k][i] == names[i];
  }

  lemma {:induction false} DistinctIsCounted(names: seq<string>)
    ensures |set n | n in names| <= |names|
    ensures Distinct(names) <==> |set n | n in names| == |names|
    decreases |names|
  {
    if names != [] {
      var k := |names| - 1;
      var front, all := set n | n in names[..k], set n | n in names;
      DistinctIsCounted(names[..k]);
      assert names == names[..k] + [names[k]];
      assert all == front + {names[k]};
      DistinctFront(names, k);
      hide Distinct;
    }
  }

  /** The whole report, error by error: how often each stands in it. */
  lemma ReportCounted(p: Procedure, e: Error)
    ensures var n := Count(ProcErrors(p), e);
      match e
      case DuplicateRole => n == Once(!Distinct(p.roles))
      case DuplicateStep => n == |CollectIds(p.steps)| - |set x | x in CollectIds(p.steps)|
      case BodyBound => n == Once(Bound(p.steps) > p.maxBody)
      case _ => n == Faults(e, p.steps, map[], set r | r in p.roles)
  {
    var roles := RoleSet(p.roles);
    var errs := BlockErrors(p.steps, map[], {}, roles);
    TreeCounted(p.steps, e, roles);
    DistinctIsCounted(p.roles);
    CountOne(|roles| != |p.roles|, DuplicateRole, e);
    CountOne(Bound(p.steps) > p.maxBody, BodyBound, e);
    hide BlockErrors, CollectIds, Bound, Faults, Count, Distinct;
    var first, last := if |roles| != |p.roles| then [DuplicateRole] else [], if Bound(p.steps) > p.maxBody then [BodyBound] else [];
    CountJoined(first, errs, e);
    CountJoined(first + errs, last, e);
  }

  lemma TreeCounted(steps: seq<Step>, e: Error, roles: set<string>)
    ensures Count(BlockErrors(steps, map[], {}, roles), e)
         == if e == DuplicateStep then |CollectIds(steps)| - |set x | x in CollectIds(steps)|
            else Faults(e, steps, map[], roles)
    ensures e == DuplicateRole || e == BodyBound ==> Faults(e, steps, map[], roles) == 0
  {
    hide BlockErrors, Faults, CollectIds, IdsAfter, Count;
    if e == DuplicateStep {
      DuplicatesCounted(steps, map[], {}, roles);
      IdsAreCollected(steps, {});
      assert IdsAfter(steps, {}) == set x | x in CollectIds(steps);
    } else {
      BlockCounted(e, steps, map[], {}, roles);
      NoTreeFaults(e, steps, map[], roles);
    }
  }

  lemma {:induction false} NoTreeFaults(e: Error, steps: seq<Step>, visible: Visible, roles: set<string>)
    ensures e.DuplicateRole? || e.BodyBound? ==> Faults(e, steps, visible, roles) == 0
    decreases steps
  {
    if steps != [] && (e.DuplicateRole? || e.BodyBound?) {
      var s := steps[0];
      match s {
        case If(_, _, thn, els) =>
          NoTreeFaults(e, thn, visible, roles);
          NoTreeFaults(e, els, visible, roles);
        case Repeat(_, _, body) => NoTreeFaults(e, body, visible, roles);
        case _ =>
      }
      NoTreeFaults(e, steps[1..], visible[s.id := KindOf(s)], roles);
    }
  }
}
