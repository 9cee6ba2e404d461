/** The document checker's static pass over a procedure: one walk that
    collects errors and returns the worst-case bound. */
module StaticCheck {
  import opened Procedures

  datatype Error =
    | DuplicateRole | DuplicateStep | UnknownRole | ReferenceScope
    | SampleSource | PredicateScope | BoundsOrder | BodyBound

  type Visible = map<string, Kind>

  // ---- what the walk computes, as functions ------------------------------

  function RefErrors(names: seq<string>, visible: Visible): seq<Error> {
    if names == [] then []
    else (if names[0] in visible then [] else [ReferenceScope]) + RefErrors(names[1..], visible)
  }

  function SampleErrors(s: Step, visible: Visible): seq<Error> {
    if s.Sample? && !(s.source in visible && visible[s.source].InvokeKind?)
    then [SampleSource] else []
  }

  function PredicateErrors(s: Step, visible: Visible): seq<Error> {
    if s.If? || s.Assert? then
      (if s.pred.sample in visible && visible[s.pred.sample].SampleKind? then [] else [PredicateScope])
      + (if s.pred.minimum > s.pred.maximum then [BoundsOrder] else [])
    else []
  }

  function IdentityErrors(s: Step, ids: set<string>, roles: set<string>): seq<Error> {
    (if s.id in ids then [DuplicateStep] else [])
    + (if HasRole(s) && s.role !in roles then [UnknownRole] else [])
  }

  /** The errors of one step before its nested blocks are entered. */
  function OwnErrors(s: Step, visible: Visible, ids: set<string>, roles: set<string>): seq<Error> {
    IdentityErrors(s, ids, roles)
    + (RefErrors(StepRefs(s), visible) + (SampleErrors(s, visible) + PredicateErrors(s, visible)))
  }

  function NestedErrors(s: Step, visible: Visible, ids: set<string>, roles: set<string>): seq<Error>
    decreases s, 0
  {
    match s
    case If(_, _, thn, els) =>
      BlockErrors(thn, visible, ids, roles)
      + BlockErrors(els, visible, IdsAfter(thn, ids), roles)
    case Repeat(_, _, body) => BlockErrors(body, visible, ids, roles)
    case _ => []
  }

  function BlockErrors(steps: seq<Step>, visible: Visible, ids: set<string>, roles: set<string>): seq<Error>
    decreases steps, 2
  {
    if steps == [] then []
    else
      var s := steps[0];
      StepErrors(s, visible, ids, roles)
      + BlockErrors(steps[1..], visible[s.id := KindOf(s)], NestedIds(s, ids + {s.id}), roles)
  }

  function StepErrors(s: Step, visible: Visible, ids: set<string>, roles: set<string>): seq<Error>
    decreases s, 1
  {
    OwnErrors(s, visible, ids, roles) + NestedErrors(s, visible, ids + {s.id}, roles)
  }

  /** The identifiers met once a block has been walked. */
  function IdsAfter(steps: seq<Step>, ids: set<string>): set<string> {
    if steps == [] then ids else IdsAfter(steps[1..], NestedIds(steps[0], ids + {steps[0].id}))
  }

  function NestedIds(s: Step, ids: set<string>): set<string> {
    match s
    case If(_, _, thn, els) => IdsAfter(els, IdsAfter(thn, ids))
    case Repeat(_, _, body) => IdsAfter(body, ids)
    case _ => ids
  }

  function RoleSet(roles: seq<string>): set<string> {
    set r | r in roles
  }

  function ProcErrors(p: Procedure): seq<Error> {
    (if |RoleSet(p.roles)| != |p.roles| then [DuplicateRole] else [])
    + BlockErrors(p.steps, map[], {}, RoleSet(p.roles))
    + (if Bound(p.steps) > p.maxBody then [BodyBound] else [])
  }

  lemma Assoc(a: seq<Error>, b: seq<Error>, c: seq<Error>)
    ensures (a + b) + c == a + (b + c)
  {}

  lemma Unroll(steps: seq<Step>, i: nat, visible: Visible, ids: set<string>, roles: set<string>)
    requires i < |steps|
    ensures Bound(steps[i..]) == StepBound(steps[i]) + Bound(steps[i + 1..])
    ensures BlockErrors(steps[i..], visible, ids, roles)
         == StepErrors(steps[i], visible, ids, roles)
            + BlockErrors(steps[i + 1..], visible[steps[i].id := KindOf(steps[i])],
                          NestedIds(steps[i], ids + {steps[i].id}), roles)
    ensures IdsAfter(steps[i..], ids) == IdsAfter(steps[i + 1..], NestedIds(steps[i], ids + {steps[i].id}))
  {
    assert steps[i..][1..] == steps[i + 1..];
  }

  // ---- the walk itself ----------------------------------------------------

  class ProcChecker {
    var errors: seq<Error>
    var allids: set<string>
    const roles: set<string>

    constructor (roles: seq<string>)
      ensures errors == (if |RoleSet(roles)| != |roles| then [DuplicateRole] else [])
      ensures allids == {} && this.roles == RoleSet(roles)
    {
      var distinct := set r | r in roles;
      this.roles := distinct;
      allids := {};
      errors := if |distinct| != |roles| then [DuplicateRole] else [];
    }

    method CheckRefs(names: seq<string>, visible: Visible)
      modifies this`errors
      ensures errors == old(errors) + RefErrors(names, visible)
    {
      var i := 0;
      while i < |names|
        invariant 0 <= i <= |names|
        invariant errors + RefErrors(names[i..], visible) == old(errors) + RefErrors(names, visible)
      {
        if names[i] !in visible {
          errors := errors + [ReferenceScope];
        }
        assert names[i..][1..] == names[i + 1..];
        i := i + 1;
      }
    }

    /** Everything checked about a step before its nested blocks. */
    method CheckOwn(s: Step, visible: Visible)
      modifies this
      ensures errors == old(errors) + OwnErrors(s, visible, old(allids), roles)
      ensures allids == old(allids) + {s.id}
    {
      hide RefErrors, SampleErrors, PredicateErrors, IdentityErrors;
      CheckIdentity(s);
      CheckRefs(StepRefs(s), visible);
      CheckSample(s, visible);
      CheckPredicate(s, visible);
    }

    method CheckIdentity(s: Step)
      modifies this
      ensures errors == old(errors) + IdentityErrors(s, old(allids), roles)
      ensures allids == old(allids) + {s.id}
    {
      if s.id in allids {
        errors := errors + [DuplicateStep];
      }
      allids := allids + {s.id};
      if HasRole(s) && s.role !in roles {
        errors := errors + [UnknownRole];
      }
    }

    method CheckSample(s: Step, visible: Visible)
      modifies this`errors
      ensures errors == old(errors) + SampleErrors(s, visible)
    {
      if s.Sample? && (s.source !in visible || visible[s.source] != InvokeKind) {
        errors := errors + [SampleSource];
      }
    }

    method CheckPredicate(s: Step, visible: Visible)
      modifies this`errors
      ensures errors == old(errors) + PredicateErrors(s, visible)
    {
      if s.If? || s.Assert? {
        if s.pred.sample !in visible || visible[s.pred.sample] != SampleKind {
          errors := errors + [PredicateScope];
        }
        if s.pred.minimum > s.pred.maximum {
          errors := errors + [BoundsOrder];
        }
      }
    }

    /** A nested block belongs to the step it sits in. */
    method Nested(s: Step, visible: Visible) returns (bound: nat)
      modifies this
      ensures bound == StepBound(s)
      ensures errors == old(errors) + NestedErrors(s, visible, old(allids), roles)
      ensures allids == NestedIds(s, old(allids))
      decreases s, 1
    {
      match s {
        case Repeat(_, count, body) =>
          var inner := Block(body, visible);
          bound := count * inner;
        case If(_, _, _, _) =>
          bound := Branches(s, visible);
        case _ =>
          bound := Allowance(s);
      }
    }

    method Branches(s: Step, visible: Visible) returns (bound: nat)
      requires s.If?
      modifies this
      ensures bound == Max(Bound(s.thn), Bound(s.els))
      ensures errors == old(errors) + (BlockErrors(s.thn, visible, old(allids), roles)
                                       + BlockErrors(s.els, visible, IdsAfter(s.thn, old(allids)), roles))
      ensures allids == IdsAfter(s.els, IdsAfter(s.thn, old(allids)))
      decreases s, 0
    {
      Assoc(errors, BlockErrors(s.thn, visible, allids, roles),
            BlockErrors(s.els, visible, IdsAfter(s.thn, allids), roles));
      var left := Block(s.thn, visible);
      var right := Block(s.els, visible);
      bound := Max(left, right);
    }

    method CheckStep(s: Step, visible: Visible) returns (bound: nat)
      modifies this
      ensures bound == StepBound(s)
      ensures errors == old(errors) + StepErrors(s, visible, old(allids), roles)
      ensures allids == NestedIds(s, old(allids) + {s.id})
      decreases s, 2
    {
      CheckOwn(s, visible);
      bound := Nested(s, visible);
    }

    method Block(steps: seq<Step>, parents: Visible) returns (bound: nat)
      modifies this
      ensures bound == Bound(steps)
      ensures errors == old(errors) + BlockErrors(steps, parents, old(allids), roles)
      ensures allids == IdsAfter(steps, old(allids))
      decreases steps
    {
      var visible := parents;
      bound := 0;
      var i := 0;
      while i < |steps|
        invariant 0 <= i <= |steps|
        invariant bound + Bound(steps[i..]) == Bound(steps)
        invariant errors + BlockErrors(steps[i..], visible, allids, roles)
               == old(errors) + BlockErrors(steps, parents, old(allids), roles)
        invariant IdsAfter(steps[i..], allids) == IdsAfter(steps, old(allids))
      {
        var s := steps[i];
        Unroll(steps, i, visible, allids, roles);
        Assoc(errors, StepErrors(s, visible, allids, roles),
              BlockErrors(steps[i + 1..], visible[s.id := KindOf(s)], NestedIds(s, allids + {s.id}), roles));
        var cost := CheckStep(s, visible);
        bound := bound + cost;
        visible := visible[s.id := KindOf(s)];
        i := i + 1;
      }
    }

    method Finish(bound: nat, maxBody: nat)
      modifies this`errors
      ensures errors == old(errors) + (if bound > maxBody then [BodyBound] else [])
    {
      if bound > maxBody {
        errors := errors + [BodyBound];
      }
    }
  }

  /** The whole check: the errors and the bound it returns. */
  method CheckProcedure(p: Procedure) returns (errors: seq<Error>, bound: nat)
    ensures errors == ProcErrors(p) && bound == Bound(p.steps)
  {
    var checker := new ProcChecker(p.roles);
    bound := checker.Block(p.steps, map[]);
    checker.Finish(bound, p.maxBody);
    errors := checker.errors;
  }

  // ---- reading the result -------------------------------------------------

  /** Lexical scope, stated once for the whole tree: every reference is
      visible, sample sources are visible invokes, predicates read visible
      samples. */
  ghost predicate ScopeClean(steps: seq<Step>, visible: Visible) {
    steps == []
    || (OwnScopeClean(steps[0], visible)
        && NestedScopeClean(steps[0], visible)
        && ScopeClean(steps[1..], visible[steps[0].id := KindOf(steps[0])]))
  }

  ghost predicate OwnScopeClean(s: Step, visible: Visible) {
    && (forall r :: Reads(s, r) ==> r in visible)
    && (s.Sample? ==> s.source in visible && visible[s.source].InvokeKind?)
    && (s.If? || s.Assert? ==> s.pred.sample in visible && visible[s.pred.sample].SampleKind?)
  }

  ghost predicate NestedScopeClean(s: Step, visible: Visible) {
    match s
    case If(_, _, thn, els) => ScopeClean(thn, visible) && ScopeClean(els, visible)
    case Repeat(_, _, body) => ScopeClean(body, visible)
    case _ => true
  }

  predicate IsScopeError(e: Error) {
    e.ReferenceScope? || e.SampleSource? || e.PredicateScope?
  }

  predicate NoScopeError(errors: seq<Error>) {
    forall e :: e in errors ==> !IsScopeError(e)
  }

  lemma {:induction false} RefErrorsExact(names: seq<string>, visible: Visible)
    ensures (RefErrors(names, visible) == []) == (forall r :: r in names ==> r in visible)
    ensures forall e :: e in RefErrors(names, visible) ==> e == ReferenceScope
  {
    if names != [] {
      RefErrorsExact(names[1..], visible);
      assert names == [names[0]] + names[1..];
    }
  }

  lemma SampleErrorsExact(s: Step, visible: Visible)
    ensures NoScopeError(SampleErrors(s, visible))
         == (s.Sample? ==> s.source in visible && visible[s.source].InvokeKind?)
    ensures DuplicateStep !in SampleErrors(s, visible)
  {
    assert SampleErrors(s, visible) != [] ==> SampleErrors(s, visible)[0] in SampleErrors(s, visible);
  }

  lemma PredicateErrorsExact(s: Step, visible: Visible)
    ensures NoScopeError(PredicateErrors(s, visible))
         == (s.If? || s.Assert? ==> s.pred.sample in visible && visible[s.pred.sample].SampleKind?)
    ensures DuplicateStep !in PredicateErrors(s, visible)
  {
    assert PredicateErrors(s, visible) != [] ==> PredicateErrors(s, visible)[0] in PredicateErrors(s, visible);
  }

  lemma OwnErrorsExact(s: Step, visible: Visible, ids: set<string>, roles: set<string>)
    ensures NoScopeError(OwnErrors(s, visible, ids, roles)) == OwnScopeClean(s, visible)
    ensures (DuplicateStep in OwnErrors(s, visible, ids, roles)) == (s.id in ids)
  {
    var re, se, pe := RefErrors(StepRefs(s), visible), SampleErrors(s, visible), PredicateErrors(s, visible);
    RefErrorsExact(StepRefs(s), visible);
    forall r { StepRefsExactly(s, r); }
    SampleErrorsExact(s, visible);
    PredicateErrorsExact(s, visible);
    hide RefErrors, SampleErrors, PredicateErrors, StepRefs, Reads;
    var ie := IdentityErrors(s, ids, roles);
    assert forall e :: e in OwnErrors(s, visible, ids, roles) <==> e in ie || e in re || e in se || e in pe;
    assert re != [] ==> re[0] in re;
  }

  /** The walk reports a scope error exactly when some reference breaks the
      lexical rule. */
  lemma {:induction false} ScopeErrorsExact(steps: seq<Step>, visible: Visible, ids: set<string>, roles: set<string>)
    ensures NoScopeError(BlockErrors(steps, visible, ids, roles)) == ScopeClean(steps, visible)
    decreases steps
  {
    if steps != [] {
      var s := steps[0];
      var own, nested := OwnErrors(s, visible, ids, roles), NestedErrors(s, visible, ids + {s.id}, roles);
      var rest := BlockErrors(steps[1..], visible[s.id := KindOf(s)], NestedIds(s, ids + {s.id}), roles);
      OwnErrorsExact(s, visible, ids, roles);
      match s {
        case If(_, _, thn, els) =>
          ScopeErrorsExact(thn, visible, ids + {s.id}, roles);
          ScopeErrorsExact(els, visible, IdsAfter(thn, ids + {s.id}), roles);
        case Repeat(_, _, body) =>
          ScopeErrorsExact(body, visible, ids + {s.id}, roles);
        case _ =>
      }
      ScopeErrorsExact(steps[1..], visible[s.id := KindOf(s)], NestedIds(s, ids + {s.id}), roles);
      assert forall e :: e in own + nested + rest <==> e in own || e in nested || e in rest;
    }
  }

  lemma {:induction false} IdsAreCollected(steps: seq<Step>, ids: set<string>)
    ensures forall x :: x in IdsAfter(steps, ids) <==> x in ids || x in CollectIds(steps)
    decreases steps
  {
    if steps != [] {
      StepIdsAreCollected(steps[0], ids);
      IdsAreCollected(steps[1..], NestedIds(steps[0], ids + {steps[0].id}));
    }
  }

  lemma {:induction false} StepIdsAreCollected(s: Step, ids: set<string>)
    ensures forall x :: x in NestedIds(s, ids + {s.id}) <==> x in ids || x in StepIds(s)
    decreases s
  {
    match s {
      case If(_, _, thn, els) =>
        IdsAreCollected(thn, ids + {s.id});
        IdsAreCollected(els, IdsAfter(thn, ids + {s.id}));
      case Repeat(_, _, body) => IdsAreCollected(body, ids + {s.id});
      case _ =>
    }
  }

  /** Free of duplicates and of identifiers met before. */
  predicate Fresh(names: seq<string>, ids: set<string>) {
    Distinct(names) && forall x :: x in names ==> x !in ids
  }

  lemma FreshAppend(a: seq<string>, b: seq<string>, ids: set<string>, seen: set<string>)
    requires forall x :: x in seen <==> x in ids || x in a
    ensures Fresh(a + b, ids) == (Fresh(a, ids) && Fresh(b, seen))
  {
    if Fresh(a + b, ids) {
      FreshSplit(a, b, ids, seen);
    }
    if Fresh(a, ids) && Fresh(b, seen) {
      forall i, j | 0 <= i < j < |a + b| ensures (a + b)[i] != (a + b)[j] {
        if i < |a| <= j {
          assert (a + b)[i] == a[i] && (a + b)[j] == b[j - |a|];
          assert a[i] in seen;
        }
      }
    }
  }

  lemma FreshSplit(a: seq<string>, b: seq<string>, ids: set<string>, seen: set<string>)
    requires forall x :: x in seen <==> x in ids || x in a
    requires Fresh(a + b, ids)
    ensures Fresh(a, ids) && Fresh(b, seen)
  {
    var c := a + b;
    assert c[..|a|] == a && c[|a|..] == b;
    forall i, j | 0 <= i < |a| && 0 <= j < |b| ensures a[i] != b[j] {
      assert c[i] == a[i] && c[|a| + j] == b[j];
    }
    forall x | x in a || x in b ensures x !in ids {
      assert x in c;
    }
  }

  /** The duplicate-step error appears exactly when two steps of the whole
      procedure, nested blocks included, share an identifier. */
  lemma {:induction false} DuplicatesExact(steps: seq<Step>, visible: Visible, ids: set<string>, roles: set<string>)
    ensures (DuplicateStep in BlockErrors(steps, visible, ids, roles)) == !Fresh(CollectIds(steps), ids)
    decreases steps
  {
    if steps != [] {
      var s, rest := steps[0], steps[1..];
      var after := NestedIds(s, ids + {s.id});
      OwnErrorsExact(s, visible, ids, roles);
      NestedDuplicatesExact(s, visible, ids, roles);
      StepIdsAreCollected(s, ids);
      DuplicatesExact(rest, visible[s.id := KindOf(s)], after, roles);
      FreshAppend(StepIds(s), CollectIds(rest), ids, after);
    }
  }

  lemma {:induction false} NestedDuplicatesExact(s: Step, visible: Visible, ids: set<string>, roles: set<string>)
    ensures (s.id in ids || DuplicateStep in NestedErrors(s, visible, ids + {s.id}, roles))
         == !Fresh(StepIds(s), ids)
    decreases s
  {
    var seen := ids + {s.id};
    match s {
      case If(id, _, thn, els) =>
        DuplicatesExact(thn, visible, seen, roles);
        DuplicatesExact(els, visible, IdsAfter(thn, seen), roles);
        IdsAreCollected(thn, seen);
        FreshAppend([id] + CollectIds(thn), CollectIds(els), ids, IdsAfter(thn, seen));
        FreshAppend([id], CollectIds(thn), ids, seen);
      case Repeat(id, _, body) =>
        DuplicatesExact(body, visible, seen, roles);
        FreshAppend([id], CollectIds(body), ids, seen);
      case _ =>
    }
  }

  /** What a clean report means, in the procedure's own terms. */
  lemma ReportExact(p: Procedure)
    ensures NoScopeError(ProcErrors(p)) == ScopeClean(p.steps, map[])
    ensures (DuplicateStep in ProcErrors(p)) == !Distinct(CollectIds(p.steps))
    ensures (BodyBound in ProcErrors(p)) ==> Bound(p.steps) > p.maxBody
    ensures Bound(p.steps) > p.maxBody ==> BodyBound in ProcErrors(p)
  {
    var errs := BlockErrors(p.steps, map[], {}, RoleSet(p.roles));
    ScopeErrorsExact(p.steps, map[], {}, RoleSet(p.roles));
    DuplicatesExact(p.steps, map[], {}, RoleSet(p.roles));
    NoBodyBound(p.steps, map[], {}, RoleSet(p.roles));
    hide BlockErrors, ScopeClean, CollectIds, Bound;
    assert forall e :: e in errs ==> e in ProcErrors(p);
  }

  lemma {:induction false} NoBodyBound(steps: seq<Step>, visible: Visible, ids: set<string>, roles: set<string>)
    ensures BodyBound !in BlockErrors(steps, visible, ids, roles)
    decreases steps
  {
    if steps != [] {
      var s := steps[0];
      RefErrorsExact(StepRefs(s), visible);
      assert BodyBound !in OwnErrors(s, visible, ids, roles);
      NoNestedBodyBound(s, visible, ids + {s.id}, roles);
      NoBodyBound(steps[1..], visible[s.id := KindOf(s)], NestedIds(s, ids + {s.id}), roles);
    }
  }

  lemma {:induction false} NoNestedBodyBound(s: Step, visible: Visible, ids: set<string>, roles: set<string>)
    ensures BodyBound !in NestedErrors(s, visible, ids, roles)
    decreases s
  {
    match s {
      case If(_, _, thn, els) =>
        NoBodyBound(thn, visible, ids, roles);
        NoBodyBound(els, visible, IdsAfter(thn, ids), roles);
      case Repeat(_, _, body) => NoBodyBound(body, visible, ids, roles);
      case _ =>
    }
  }
}
