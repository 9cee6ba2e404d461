/** How an admitted procedure body runs: the executor's walk over the steps,
    its chain of result scopes, its deadline check and its event order.
    Everything the gateway does not control is answered by an environment. */
module Executor {
  import opened Options
  import opened Procedures

  /** Where an occurrence sits: block position, then branch (0 then, 1 else)
      or iteration, then position inside, and so on. */
  type Address = seq<nat>

  /** What the world does at one occurrence: host time spent before it, host
      time between its check and its dispatch, its own duration, whether it ends
      the body, and a predicate's verdict. */
  datatype Outcome = Outcome(gap: nat, prep: nat, duration: nat, ends: bool, verdict: bool)

  type World = (Step, Address) -> Outcome

  /** A recorded result: which kind of step produced it, and where. */
  datatype Binding = Binding(kind: Kind, at: Address)

  type Scope = seq<map<string, Binding>>

  datatype Need = NeedResult | NeedInvoke | NeedSample

  datatype Event =
    | Ran(id: string, result: Binding)
    | Looked(name: string, need: Need, reader: Address, found: Option<Binding>)

  datatype End = Running | TimedOut | Unresolved | Stopped

  /** `now` is in nanoseconds; `work` is the part of it spent inside steps and
      `gap` the part spent by the host around them. */
  datatype State = State(now: nat, work: nat, gap: nat, scope: Scope, trace: seq<Event>, end: End)

  const NS_PER_MS: nat := 1_000_000

  /** Innermost scope first. */
  function Lookup(scope: Scope, name: string): Option<Binding> {
    if scope == [] then None
    else if name in scope[0] then Some(scope[0][name])
    else Lookup(scope[1..], name)
  }

  function Bind(scope: Scope, name: string, b: Binding): Scope
    requires scope != []
  {
    [scope[0][name := b]] + scope[1..]
  }

  /** Whether a looked-up result serves the reader: a reference needs an
      operation result, a sample an invoke result, a predicate a sample. */
  predicate Serves(found: Option<Binding>, need: Need) {
    found.Some? &&
    match need
    case NeedResult => IsOperation(found.value.kind)
    case NeedInvoke => found.value.kind.InvokeKind?
    case NeedSample => found.value.kind.SampleKind?
  }

  /** Look names up in order; the first that does not serve ends the body. */
  function LookAll(names: seq<string>, need: Need, at: Address, st: State): State {
    if names == [] || st.end != Running then st
    else
      var found := Lookup(st.scope, names[0]);
      var st1 := st.(trace := st.trace + [Looked(names[0], need, at, found)],
                     end := if Serves(found, need) then Running else Unresolved);
      LookAll(names[1..], need, at, st1)
  }

  /** The lookups a step makes before it does anything else. */
  function StepLooks(s: Step, at: Address, st: State): State {
    if s.Sample? then LookAll([s.source], NeedInvoke, at, st)
    else if s.If? || s.Assert? then LookAll([s.pred.sample], NeedSample, at, st)
    else LookAll(StepRefs(s), NeedResult, at, st)
  }

  /** A delay is cut short at the body deadline. */
  function Spent(s: Step, o: Outcome, now: nat, deadline: nat): nat {
    if s.Delay? && now + o.duration > deadline then (if deadline > now then deadline - now else 0) else o.duration
  }

  /** A leaf spends its time and may end the body; a failed assertion always
      does. */
  function Leaf(s: Step, o: Outcome, deadline: nat, st: State): State {
    var spent := Spent(s, o, st.now, deadline);
    st.(now := st.now + spent, work := st.work + spent,
        end := if o.ends || (s.Assert? && !o.verdict) then Stopped else Running)
  }

  /** An operation meets the body deadline once more as it leaves the host. */
  function Dispatch(s: Step, o: Outcome, deadline: nat, st: State): State {
    if !IsOperation(KindOf(s)) then Leaf(s, o, deadline, st)
    else
      var st1 := Wait(st, o.prep);
      if st1.now >= deadline then st1.(end := TimedOut) else Leaf(s, o, deadline, st1)
  }

  /** Host time passing around a step. */
  function Wait(st: State, gap: nat): State {
    st.(now := st.now + gap, gap := st.gap + gap)
  }

  /** The step's result enters the scope of its own block. */
  function Record(s: Step, at: Address, st: State): State
    requires st.scope != []
  {
    var b := Binding(KindOf(s), at);
    st.(scope := Bind(st.scope, s.id, b), trace := st.trace + [Ran(s.id, b)])
  }

  function Open(st: State): State {
    st.(scope := [map[]] + st.scope)
  }

  /** Leave a child scope: whatever it bound is dropped. */
  function Close(st: State, outer: Scope): State {
    st.(scope := outer)
  }

  function Block(w: World, deadline: nat, steps: seq<Step>, at: Address, i: nat, st: State): State
    requires st.scope != []
    ensures Block(w, deadline, steps, at, i, st).scope != []
    decreases steps, 0
  {
    if steps == [] || st.end != Running then st
    else
      var s, here := steps[0], at + [i];
      var st1 := Wait(st, w(s, here).gap);
      if st1.now >= deadline then st1.(end := TimedOut)
      else Block(w, deadline, steps[1..], at, i + 1, Record(s, here, Execute(w, deadline, s, here, st1)))
  }

  function Execute(w: World, deadline: nat, s: Step, at: Address, st: State): State
    requires st.scope != [] && st.end == Running
    ensures Execute(w, deadline, s, at, st).scope == st.scope
    decreases s, 0
  {
    LookAllKeepsScope(s, at, st);
    if s.Repeat? then Loop(w, deadline, s, at, 0, st)
    else
      var st1 := StepLooks(s, at, st);
      if st1.end != Running then st1
      else if s.If? then
        if w(s, at).ends then st1.(end := Stopped)
        else if w(s, at).verdict then Close(Block(w, deadline, s.thn, at + [0], 0, Open(st1)), st1.scope)
        else Close(Block(w, deadline, s.els, at + [1], 0, Open(st1)), st1.scope)
      else Dispatch(s, w(s, at), deadline, st1)
  }

  function Loop(w: World, deadline: nat, s: Step, at: Address, k: nat, st: State): State
    requires s.Repeat? && k <= s.count && st.scope != []
    ensures Loop(w, deadline, s, at, k, st).scope == st.scope
    decreases s.body, 1, s.count - k
  {
    if k == s.count || st.end != Running then st
    else
      Loop(w, deadline, s, at, k + 1, Close(Block(w, deadline, s.body, at + [k], 0, Open(st)), st.scope))
  }

  lemma LookAllKeeps(names: seq<string>, need: Need, at: Address, st: State)
    ensures LookAll(names, need, at, st).scope == st.scope
    ensures LookAll(names, need, at, st).now == st.now
    ensures LookAll(names, need, at, st).work == st.work
    ensures LookAll(names, need, at, st).gap == st.gap
  {}

  lemma LookAllKeepsScope(s: Step, at: Address, st: State)
    ensures StepLooks(s, at, st).scope == st.scope
    ensures StepLooks(s, at, st).now == st.now
    ensures StepLooks(s, at, st).work == st.work
    ensures StepLooks(s, at, st).gap == st.gap
    ensures st.end == Running ==> StepLooks(s, at, st).end == Running || StepLooks(s, at, st).end == Unresolved
  {
    if s.Sample? { LookAllKeeps([s.source], NeedInvoke, at, st); }
    else if s.If? || s.Assert? { LookAllKeeps([s.pred.sample], NeedSample, at, st); }
    else { LookAllKeeps(StepRefs(s), NeedResult, at, st); LookAllEnds(StepRefs(s), NeedResult, at, st); }
  }

  lemma LookAllEnds(names: seq<string>, need: Need, at: Address, st: State)
    ensures st.end == Running ==>
              LookAll(names, need, at, st).end == Running || LookAll(names, need, at, st).end == Unresolved
  {}

  /** What a leaf does after its lookups, by its step: an operation is refused
      if its own preparation brings it to the deadline, a delay never passes the
      deadline, and only a failed assertion or the world ends the body. */
  lemma LeafExactly(w: World, deadline: nat, s: Step, at: Address, st: State)
    requires st.scope != [] && st.end == Running && st.now < deadline && !s.Repeat? && !s.If?
    requires StepLooks(s, at, st).end == Running
    ensures var o, r := w(s, at), Execute(w, deadline, s, at, st);
      var operation := s.Invoke? || s.Read? || s.Write? || s.Capture?;
      && (r.end == TimedOut <==> operation && st.now + o.prep >= deadline)
      && (r.end == Stopped <==> r.end != TimedOut && (o.ends || (s.Assert? && o.verdict == false)))
      && (r.end == Running <==> r.end != TimedOut && !o.ends && (s.Assert? ==> o.verdict))
      && r.gap == st.gap + (if operation then o.prep else 0)
      && r.work == st.work + (if r.end == TimedOut then 0
                              else if s.Delay? && o.duration > deadline - st.now then deadline - st.now
                              else o.duration)
      && r.now - st.now == (r.gap - st.gap) + (r.work - st.work)
  {
    LookAllKeepsScope(s, at, st);
  }

  /** One body run, accepted at time zero with its deadline in nanoseconds. */
  function Run(w: World, deadline: nat, steps: seq<Step>): State {
    Block(w, deadline, steps, [], 0, State(0, 0, 0, [map[]], [], Running))
  }
}
