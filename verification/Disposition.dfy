/** Disposing of governed rows: archive staging first, then one store
    transaction; and the read-only audit of the archived trail. */
module Disposition {
  import opened Options
  import opened ArchiveStaging

  /** One committed `archived` row of the audit trail. */
  datatype TrailRow = TrailRow(target: string, artifact: Option<Id>, length: Option<nat>, destination: Option<string>)

  /** Governed rows with their artifact bindings, the stored artifacts, the
      artifacts other records still pin, and the archived trail. */
  datatype Store = Store(rows: map<string, Option<Id>>, artifacts: map<Id, Bytes>, pinned: set<Id>, trail: seq<TrailRow>)

  /** A row with the facts its staging established. */
  datatype StagedRow = StagedRow(row: string, artifact: Id, length: nat, destination: string)

  // ---- the transaction ------------------------------------------------------------

  /** One entry of the worklist: delete tier first, then archive tier. */
  datatype Work = Delete(name: string) | Archive(staged: StagedRow)

  function RowOf(w: Work): string {
    if w.Delete? then w.name else w.staged.row
  }

  function Worklist(deletes: seq<string>, staged: seq<StagedRow>): (work: seq<Work>)
    ensures |work| == |deletes| + |staged|
  {
    seq(|deletes|, i requires 0 <= i < |deletes| => Delete(deletes[i]))
    + seq(|staged|, i requires 0 <= i < |staged| => Archive(staged[i]))
  }

  function Recorded(r: StagedRow): TrailRow {
    TrailRow(r.row, Some(r.artifact), Some(r.length), Some(r.destination))
  }

  function RecordedAll(staged: seq<StagedRow>): seq<TrailRow> {
    seq(|staged|, i requires 0 <= i < |staged| => Recorded(staged[i]))
  }

  /** The row must still be there, and an archived one still bound to what was
      staged. */
  predicate Doable(s: Store, w: Work) {
    RowOf(w) in s.rows && (w.Archive? ==> s.rows[RowOf(w)] == Some(w.staged.artifact))
  }

  function Do(s: Store, w: Work): Store {
    s.(rows := s.rows - {RowOf(w)}, trail := s.trail + if w.Archive? then [Recorded(w.staged)] else [])
  }

  function Execute(s: Store, work: seq<Work>): Option<Store> {
    if work == [] then Some(s)
    else
      var u :- Execute(s, work[..|work| - 1]);
      var w := work[|work| - 1];
      if Doable(u, w) then Some(Do(u, w)) else None
  }

  predicate Referenced(s: Store, id: Id) {
    id in s.pinned || exists r :: r in s.rows && s.rows[r] == Some(id)
  }

  /** Reference-checked collection; a stored artifact that does not hash to its
      address refuses. */
  function Collect(digest: Digest, s: Store, dropped: seq<Id>): Option<Store>
    decreases dropped
  {
    if dropped == [] then Some(s)
    else
      var id := dropped[0];
      if Referenced(s, id) || id !in s.artifacts then Collect(digest, s, dropped[1..])
      else if digest(s.artifacts[id]) != id then None
      else Collect(digest, s.(artifacts := s.artifacts - {id}), dropped[1..])
  }

  /** The artifacts the worked rows are bound to, as the transaction reads them. */
  function Dropped(s: Store, work: seq<Work>): (ids: seq<Id>)
    ensures forall id :: id in ids <==>
              exists i :: 0 <= i < |work| && RowOf(work[i]) in s.rows && s.rows[RowOf(work[i])] == Some(id)
  {
    if work == [] then []
    else
      var n := |work| - 1;
      var row := RowOf(work[n]);
      Dropped(s, work[..n]) + if row in s.rows && s.rows[row].Some? then [s.rows[row].value] else []
  }

  /** All or nothing: `None` is the rolled-back transaction. */
  function Commit(digest: Digest, s: Store, work: seq<Work>): Option<Store> {
    var u :- Execute(s, work);
    Collect(digest, u, Dropped(s, work))
  }

  // ---- what the transaction does ----------------------------------------------------

  function Gone(work: seq<Work>): set<string> {
    set w | w in work :: RowOf(w)
  }

  /** Each row once, there, and bound as staged. */
  ghost predicate Clean(s: Store, work: seq<Work>) {
    && (forall i :: 0 <= i < |work| ==>
          match work[i]
          case Delete(name) => name in s.rows
          case Archive(staged) => staged.row in s.rows && s.rows[staged.row] == Some(staged.artifact))
    && (forall i, j :: 0 <= i < j < |work| ==> RowOf(work[i]) != RowOf(work[j]))
  }

  /** The trail rows of the archive tier, in order. */
  function Recordings(work: seq<Work>): seq<TrailRow> {
    if work == [] then []
    else
      var w := work[|work| - 1];
      Recordings(work[..|work| - 1]) + if w.Archive? then [Recorded(w.staged)] else []
  }

  lemma GoneLast(work: seq<Work>)
    requires work != []
    ensures Gone(work) == Gone(work[..|work| - 1]) + {RowOf(work[|work| - 1])}
  {
    assert work == work[..|work| - 1] + [work[|work| - 1]];
  }

  lemma CleanLast(s: Store, work: seq<Work>)
    requires work != []
    ensures var init, w := work[..|work| - 1], work[|work| - 1];
            Clean(s, work) <==> Clean(s, init) && Doable(s, w) && RowOf(w) !in Gone(init)
  {
    var init, w := work[..|work| - 1], work[|work| - 1];
    if Clean(s, init) && Doable(s, w) && RowOf(w) !in Gone(init) {
      forall i | 0 <= i < |init| ensures RowOf(work[i]) != RowOf(w) {
        assert init[i] in init;
      }
    }
    if Clean(s, work) {
      forall v | v in init ensures RowOf(v) != RowOf(w) {
        var i :| 0 <= i < |init| && init[i] == v;
        assert work[i] == v;
      }
    }
  }

  lemma {:induction false} ExecuteExactly(s: Store, work: seq<Work>)
    ensures Execute(s, work).Some? <==> Clean(s, work)
    ensures Execute(s, work).Some? ==>
              Execute(s, work).value == s.(rows := s.rows - Gone(work), trail := s.trail + Recordings(work))
    decreases |work|
  {
    if work == [] {
      assert s.rows - Gone(work) == s.rows && s.trail + [] == s.trail;
    } else {
      var init, w := work[..|work| - 1], work[|work| - 1];
      ExecuteExactly(s, init);
      CleanLast(s, work);
      GoneLast(work);
      hide Clean, Gone;
      TrailAssoc(s.trail, Recordings(init), if w.Archive? then [Recorded(w.staged)] else []);
      assert s.rows - Gone(init) - {RowOf(w)} == s.rows - (Gone(init) + {RowOf(w)});
    }
  }

  lemma TrailAssoc(a: seq<TrailRow>, b: seq<TrailRow>, c: seq<TrailRow>)
    ensures (a + b) + c == a + (b + c)
  {}

  /** A worklist works off the rows to delete, then the staged rows, and nothing
      else. */
  lemma WorklistExactly(deletes: seq<string>, staged: seq<StagedRow>)
    ensures var work, n := Worklist(deletes, staged), |deletes|;
      && |work| == n + |staged|
      && (forall i :: 0 <= i < n ==> work[i] == Delete(deletes[i]))
      && (forall i :: n <= i < |work| ==> work[i] == Archive(staged[i - n]))
  {}

  lemma WorkedRows(deletes: seq<string>, staged: seq<StagedRow>)
    ensures forall name :: name in Gone(Worklist(deletes, staged)) <==>
      name in deletes || exists r :: r in staged && r.row == name
  {
    var work, n := Worklist(deletes, staged), |deletes|;
    WorklistExactly(deletes, staged);
    hide Worklist;
    forall k | 0 <= k < |staged| ensures staged[k].row in Gone(work) {
      assert work[n + k] in work;
    }
    forall i | 0 <= i < n ensures deletes[i] in Gone(work) {
      assert work[i] in work;
    }
  }

  /** A worklist's trail rows are those of its staged rows. */
  lemma {:induction false} RecordingsOfWorklist(deletes: seq<string>, staged: seq<StagedRow>)
    ensures Recordings(Worklist(deletes, staged)) == RecordedAll(staged)
    ensures forall i :: 0 <= i < |staged| ==>
      && RecordedAll(staged)[i].target == staged[i].row && RecordedAll(staged)[i].artifact == Some(staged[i].artifact)
      && RecordedAll(staged)[i].length == Some(staged[i].length)
      && RecordedAll(staged)[i].destination == Some(staged[i].destination)
    decreases |deletes| + |staged|
  {
    var work := Worklist(deletes, staged);
    if staged != [] {
      var init := staged[..|staged| - 1];
      RecordingsOfWorklist(deletes, init);
      assert work[..|work| - 1] == Worklist(deletes, init);
      assert RecordedAll(staged) == RecordedAll(init) + [Recorded(staged[|staged| - 1])];
    } else if deletes != [] {
      RecordingsOfWorklist(deletes[..|deletes| - 1], staged);
      assert work[..|work| - 1] == Worklist(deletes[..|deletes| - 1], staged);
    }
  }

  /** Stored, dropped, and referenced by nothing. */
  ghost function Unreferenced(s: Store, dropped: seq<Id>): set<Id> {
    set id | id in s.artifacts && id in dropped && !Referenced(s, id)
  }

  lemma {:induction false} CollectExactly(digest: Digest, s: Store, dropped: seq<Id>)
    ensures Collect(digest, s, dropped).Some?
       <==> forall id :: id in Unreferenced(s, dropped) ==> digest(s.artifacts[id]) == id
    ensures Collect(digest, s, dropped).Some? ==>
              Collect(digest, s, dropped).value == s.(artifacts := s.artifacts - Unreferenced(s, dropped))
    decreases dropped
  {
    if dropped == [] {
      assert Unreferenced(s, dropped) == {} && s.artifacts - {} == s.artifacts;
    } else {
      var id := dropped[0];
      assert dropped == [id] + dropped[1..];
      if Referenced(s, id) || id !in s.artifacts {
        CollectExactly(digest, s, dropped[1..]);
        assert Unreferenced(s, dropped) == Unreferenced(s, dropped[1..]);
      } else {
        var s1 := s.(artifacts := s.artifacts - {id});
        CollectExactly(digest, s1, dropped[1..]);
        assert Unreferenced(s, dropped) == Unreferenced(s1, dropped[1..]) + {id};
        assert s1.artifacts - Unreferenced(s1, dropped[1..]) == s.artifacts - Unreferenced(s, dropped);
      }
    }
  }

  /** The stored artifacts the worked rows are bound to, that no other row is
      bound to and no other record pins. */
  ghost function Freed(s: Store, work: seq<Work>): set<Id> {
    set id | id in s.artifacts && id in Dropped(s, work) && id !in s.pinned
             && forall n :: n in s.rows && s.rows[n] == Some(id) ==> n in Gone(work)
  }

  ghost predicate Committable(digest: Digest, s: Store, work: seq<Work>) {
    Clean(s, work) && forall id :: id in Freed(s, work) ==> digest(s.artifacts[id]) == id
  }

  ghost function Committed(s: Store, work: seq<Work>): Store {
    Store(s.rows - Gone(work), s.artifacts - Freed(s, work), s.pinned, s.trail + Recordings(work))
  }

  lemma FreedIsUnreferenced(s: Store, u: Store, work: seq<Work>)
    requires u == s.(rows := s.rows - Gone(work), trail := u.trail)
    ensures Unreferenced(u, Dropped(s, work)) == Freed(s, work)
  {
    hide Gone, Dropped;
    forall id ensures Referenced(u, id) <==>
                id in s.pinned || exists n :: n in s.rows && s.rows[n] == Some(id) && n !in Gone(work)
    {
      if n :| n in s.rows && s.rows[n] == Some(id) && n !in Gone(work) {
        assert u.rows[n] == Some(id);
      }
    }
  }

  /** The transaction goes through exactly if each named row is there once, each
      staged row is still bound as staged, and what it frees verifies; it then
      removes exactly those rows and exactly the artifacts nothing else needs,
      and appends exactly the staged rows to the trail. */
  lemma CommitExactly(digest: Digest, s: Store, work: seq<Work>)
    ensures Commit(digest, s, work).Some? <==> Committable(digest, s, work)
    ensures Commit(digest, s, work).Some? ==> Commit(digest, s, work).value == Committed(s, work)
  {
    hide Execute, Clean, Gone, Collect, Dropped, Recordings;
    ExecuteExactly(s, work);
    if Execute(s, work).Some? {
      var u := Execute(s, work).value;
      CollectExactly(digest, u, Dropped(s, work));
      FreedIsUnreferenced(s, u, work);
      hide Unreferenced, Freed;
    }
  }

  /** So a row not named keeps its binding, and an artifact goes only if a row
      bound to it went and nothing that stays refers to it. */
  lemma CommitSparesOthers(digest: Digest, s: Store, work: seq<Work>)
    requires Commit(digest, s, work).Some?
    ensures var c := Commit(digest, s, work).value;
      && (forall n :: n in s.rows && n !in Gone(work) ==> n in c.rows && c.rows[n] == s.rows[n])
      && (forall id :: id in s.artifacts && (Referenced(c, id) || id !in Dropped(s, work)) ==>
            id in c.artifacts && c.artifacts[id] == s.artifacts[id])
  {
    CommitExactly(digest, s, work);
    hide Commit, Gone, Dropped;
  }

  // ---- the disposition run -------------------------------------------------------------

  /** A trail row names a present object that hashes to its address and has
      the recorded length. */
  ghost predicate Sound(digest: Digest, dests: map<string, Objects>, t: TrailRow) {
    && t.artifact.Some? && t.destination.Some? && t.destination.value != "" && t.destination.value in dests
    && Intact(digest, dests[t.destination.value], t.artifact.value)
    && t.length == Some(|dests[t.destination.value][t.artifact.value].bytes|)
  }

  ghost predicate TrailSound(digest: Digest, dests: map<string, Objects>, trail: seq<TrailRow>) {
    forall t :: t in trail ==> Sound(digest, dests, t)
  }

  /** What one run may do to the destination and the store, whatever goes
      wrong: nothing at the destination is replaced, and the store either is
      as it was or gained only trail rows whose objects are verified. */
  ghost predicate DisposeStep(digest: Digest, target: string, before: Objects, after: Objects, s: Store, s': Store,
                              committed: bool) {
    && Preserved(before, after)
    && (!committed ==> s' == s)
    && (committed ==> s.trail <= s'.trail
                      && forall t :: t in s'.trail[|s.trail|..] ==> Sound(digest, map[target := after], t))
  }

  function Bindings(rows: seq<string>, s: Store): (plan: seq<PlanRow>)
    ensures |plan| == |rows|
    ensures forall i :: 0 <= i < |rows| ==>
      plan[i] == PlanRow(rows[i], if rows[i] in s.rows then s.rows[rows[i]] else None)
  {
    if rows == [] then []
    else [PlanRow(rows[0], if rows[0] in s.rows then s.rows[rows[0]] else None)] + Bindings(rows[1..], s)
  }

  function LengthOf(objects: Objects, id: Id): nat {
    if id in objects && objects[id].File? then |objects[id].bytes| else 0
  }

  /** The staged rows the transaction is handed: the binding read when staging
      began, never a later one, and the length that stands at the destination. */
  function StagedRows(objects: Objects, target: string, plan: seq<PlanRow>): (staged: seq<StagedRow>)
    ensures |staged| == |plan|
  {
    seq(|plan|, i requires 0 <= i < |plan| =>
      var id := if plan[i].artifact.Some? then plan[i].artifact.value else "";
      StagedRow(plan[i].row, id, LengthOf(objects, id), target))
  }

  method BuildStaged(digest: Digest, objects: Objects, target: string, plan: seq<PlanRow>, facts: map<Id, nat>)
    returns (staged: seq<StagedRow>)
    requires forall p :: p in plan ==> p.artifact.Some? && p.artifact.value in facts
    requires AllIntact(digest, objects, facts)
    ensures staged == StagedRows(objects, target, plan)
    ensures forall k :: 0 <= k < |plan| ==> StagedFrom(digest, objects, target, plan[k], staged[k])
  {
    staged := [];
    var i := 0;
    while i < |plan|
      invariant 0 <= i <= |plan| && |staged| == i
      invariant forall k :: 0 <= k < i ==> staged[k] == StagedRows(objects, target, plan)[k]
      invariant forall k :: 0 <= k < i ==> StagedFrom(digest, objects, target, plan[k], staged[k])
    {
      assert plan[i] in plan;
      var id := plan[i].artifact.value;
      staged := staged + [StagedRow(plan[i].row, id, facts[id], target)];
      i := i + 1;
    }
  }

  /** Stage, then commit. `store` is what staging reads; `later` is what the
      transaction finds, which others may have changed in between; `lost` is a
      power loss after staging and before the commit. A run commits exactly if
      staging succeeds, power holds and the transaction goes through, and then
      does exactly what the transaction does. */
  method Dispose(dest: Destination, target: string, archives: seq<string>, deletes: seq<string>,
                 store: Store, later: Store, faults: Faults, lost: bool)
    returns (staging: Staging, committed: bool, store': Store)
    requires target != ""
    modifies dest
    ensures DisposeStep(dest.digest, target, old(dest.objects), dest.objects, later, store', committed)
    ensures staging.Staged? <==> Stageable(dest.digest, old(dest.objects), Bindings(archives, store), store.artifacts, faults)
    ensures staging.Staged? ==>
              StagedAll(dest.digest, Seen(old(dest.objects), faults.appears), dest.objects,
                        Needed(Bindings(archives, store)), staging)
    ensures var work := Worklist(deletes, StagedRows(dest.objects, target, Bindings(archives, store)));
            && (committed <==> staging.Staged? && !lost && Committable(dest.digest, later, work))
            && store' == if committed then Committed(later, work) else later
  {
    hide StagedAll, Stageable, Commit, Committable, Committed, Needed, SoundStart, Worklist;
    var plan := Bindings(archives, store);
    staging := dest.Stage(plan, store.artifacts, faults);
    if !staging.Staged? || lost {
      return staging, false, later;
    }
    StagedCovers(dest.digest, old(dest.objects), dest.objects, plan, store.artifacts, faults, staging);
    var staged := BuildStaged(dest.digest, dest.objects, target, plan, staging.facts);
    CommitIsSound(dest.digest, dest.objects, target, later, deletes, plan, staged);
    CommitExactly(dest.digest, later, Worklist(deletes, staged));
    var outcome := Commit(dest.digest, later, Worklist(deletes, staged));
    if outcome.None? {
      return staging, false, later;
    }
    return staging, true, outcome.value;
  }

  lemma StagedCovers(digest: Digest, before: Objects, after: Objects, plan: seq<PlanRow>, artifacts: map<Id, Bytes>,
                     faults: Faults, r: Staging)
    requires r.Staged? && Stageable(digest, before, plan, artifacts, faults)
    requires StagedAll(digest, Seen(before, faults.appears), after, Needed(plan), r)
    ensures forall p :: p in plan ==> p.artifact.Some? && p.artifact.value in r.facts
    ensures AllIntact(digest, after, r.facts)
  {
    forall p | p in plan ensures p.artifact.Some? && p.artifact.value in r.facts {
      assert p.artifact == Some(p.artifact.value);
    }
  }

  /** A staged row carries its plan row's binding and a verified length. */
  ghost predicate StagedFrom(digest: Digest, objects: Objects, target: string, p: PlanRow, r: StagedRow) {
    && r.row == p.row && p.artifact == Some(r.artifact) && r.destination == target
    && Intact(digest, objects, r.artifact) && r.length == |objects[r.artifact].bytes|
  }

  lemma RecordedIsSound(digest: Digest, objects: Objects, target: string, plan: seq<PlanRow>, staged: seq<StagedRow>)
    requires target != "" && |staged| == |plan|
    requires forall k :: 0 <= k < |plan| ==> StagedFrom(digest, objects, target, plan[k], staged[k])
    ensures forall t :: t in RecordedAll(staged) ==> Sound(digest, map[target := objects], t)
  {
    forall t | t in RecordedAll(staged) ensures Sound(digest, map[target := objects], t) {
      var k :| 0 <= k < |staged| && RecordedAll(staged)[k] == t;
      assert StagedFrom(digest, objects, target, plan[k], staged[k]);
    }
  }

  lemma StagedAreGone(deletes: seq<string>, staged: seq<StagedRow>)
    ensures forall r :: r in staged ==> r.row in Gone(Worklist(deletes, staged))
  {
    var work := Worklist(deletes, staged);
    forall r | r in staged ensures r.row in Gone(work) {
      var i :| 0 <= i < |staged| && staged[i] == r;
      assert work[|deletes| + i] == Archive(r) && work[|deletes| + i] in work;
    }
  }

  /** A commit appends a trail row per staged row, each naming a verified object,
      and their rows are gone. */
  lemma CommitIsSound(digest: Digest, objects: Objects, target: string, s: Store, deletes: seq<string>,
                      plan: seq<PlanRow>, staged: seq<StagedRow>)
    requires target != "" && |staged| == |plan|
    requires forall k :: 0 <= k < |plan| ==> StagedFrom(digest, objects, target, plan[k], staged[k])
    ensures var c := Commit(digest, s, Worklist(deletes, staged));
      c.Some? ==>
        && c.value.trail == s.trail + RecordedAll(staged)
        && (forall t :: t in c.value.trail[|s.trail|..] ==> Sound(digest, map[target := objects], t))
        && (forall r :: r in staged ==> r.row !in c.value.rows)
  {
    var work := Worklist(deletes, staged);
    CommitExactly(digest, s, work);
    RecordingsOfWorklist(deletes, staged);
    RecordedIsSound(digest, objects, target, plan, staged);
    StagedAreGone(deletes, staged);
    hide Commit, Committable, Worklist, Gone, Freed, Recordings, Sound, StagedFrom, RecordedAll;
    var c := Commit(digest, s, work);
    if c.Some? {
      assert c.value.trail[|s.trail|..] == RecordedAll(staged);
    }
  }

  // ---- every run ------------------------------------------------------------------------

  datatype World = World(store: Store, dests: map<string, Objects>)

  /** A run against one destination, or anything others do: they may add
      objects and change rows and artifacts, but neither replace an archived
      object nor write the trail. */
  ghost predicate Step(digest: Digest, w: World, w': World) {
    (exists target, committed :: DisposesAt(digest, w, w', target, committed)) || OthersAct(w, w')
  }

  ghost predicate DisposesAt(digest: Digest, w: World, w': World, target: string, committed: bool) {
    && target in w.dests && target in w'.dests && w'.dests == w.dests[target := w'.dests[target]]
    && DisposeStep(digest, target, w.dests[target], w'.dests[target], w.store, w'.store, committed)
  }

  ghost predicate OthersAct(w: World, w': World) {
    && w'.store.trail == w.store.trail
    && (forall d :: d in w.dests ==> d in w'.dests && Preserved(w.dests[d], w'.dests[d]))
  }

  ghost predicate History(digest: Digest, run: seq<World>) {
    run != [] && forall i :: 0 <= i < |run| - 1 ==> Step(digest, run[i], run[i + 1])
  }

  lemma SoundGrows(digest: Digest, dests: map<string, Objects>, dests': map<string, Objects>, t: TrailRow)
    requires Sound(digest, dests, t)
    requires forall d :: d in dests ==> d in dests' && Preserved(dests[d], dests'[d])
    ensures Sound(digest, dests', t)
  {}

  lemma DisposeKeepsTrailSound(digest: Digest, w: World, w': World, target: string, committed: bool)
    requires TrailSound(digest, w.dests, w.store.trail) && DisposesAt(digest, w, w', target, committed)
    ensures TrailSound(digest, w'.dests, w'.store.trail)
  {
    var before, after := w.store.trail, w'.store.trail;
    forall t | t in after ensures Sound(digest, w'.dests, t) {
      if t in before {
        SoundGrows(digest, w.dests, w'.dests, t);
      } else {
        assert after == before + after[|before|..];
        SoundGrows(digest, map[target := w'.dests[target]], w'.dests, t);
      }
    }
  }

  lemma StepKeepsTrailSound(digest: Digest, w: World, w': World)
    requires TrailSound(digest, w.dests, w.store.trail) && Step(digest, w, w')
    ensures TrailSound(digest, w'.dests, w'.store.trail)
  {
    if OthersAct(w, w') {
      forall t | t in w'.store.trail ensures Sound(digest, w'.dests, t) {
        SoundGrows(digest, w.dests, w'.dests, t);
      }
    } else {
      var target, committed :| DisposesAt(digest, w, w', target, committed);
      DisposeKeepsTrailSound(digest, w, w', target, committed);
    }
  }

  /** Archive before delete: through any history of runs, each stopped by a
      crash or a refusal at any point or not at all, every committed archived
      row names a present object that hashes to its address. */
  lemma {:induction false} ArchiveBeforeDelete(digest: Digest, run: seq<World>)
    requires History(digest, run) && TrailSound(digest, run[0].dests, run[0].store.trail)
    ensures forall i :: 0 <= i < |run| ==> TrailSound(digest, run[i].dests, run[i].store.trail)
    decreases |run|
  {
    if |run| > 1 {
      var init := run[..|run| - 1];
      ArchiveBeforeDelete(digest, init);
      assert init[|init| - 1] == run[|run| - 2];
      assert Step(digest, run[|run| - 2], run[|run| - 2 + 1]);
      StepKeepsTrailSound(digest, run[|run| - 2], run[|run| - 1]);
    }
  }

  // ---- the audit -------------------------------------------------------------------------

  datatype Verdict = Verified | NoBinding | NoDestination | AbsentObject | DigestMismatch | LengthMismatch | SymlinkFound

  function Judge(digest: Digest, dests: map<string, Objects>, fallback: Option<string>, t: TrailRow): Verdict {
    if t.artifact.None? then NoBinding
    else
      var dest := if t.destination.Some? && t.destination.value != "" then t.destination else fallback;
      if dest.None? then NoDestination
      else if dest.value !in dests || t.artifact.value !in dests[dest.value] then AbsentObject
      else
        var e := dests[dest.value][t.artifact.value];
        if e.Symlink? then SymlinkFound
        else if digest(e.bytes) != t.artifact.value then DigestMismatch
        else if t.length.Some? && |e.bytes| != t.length.value then LengthMismatch
        else Verified
  }

  predicate IsSkip(v: Verdict) {
    v.NoBinding? || v.NoDestination?
  }

  predicate IsDrift(v: Verdict) {
    v.AbsentObject? || v.DigestMismatch? || v.LengthMismatch?
  }

  datatype Audit =
    | Report(verified: nat, drift: seq<(TrailRow, Verdict)>, skipped: seq<(TrailRow, Verdict)>)
    | SymlinkRefusal(row: TrailRow)

  /** The rows whose verdict is to be listed, in trail order. */
  function Listed(digest: Digest, dests: map<string, Objects>, fallback: Option<string>, trail: seq<TrailRow>,
                  wanted: Verdict -> bool): seq<(TrailRow, Verdict)> {
    if trail == [] then []
    else
      var t := trail[|trail| - 1];
      var v := Judge(digest, dests, fallback, t);
      Listed(digest, dests, fallback, trail[..|trail| - 1], wanted) + if wanted(v) then [(t, v)] else []
  }

  lemma {:induction false} ListedExactly(digest: Digest, dests: map<string, Objects>, fallback: Option<string>,
                                         trail: seq<TrailRow>, wanted: Verdict -> bool)
    ensures forall t, v :: (t, v) in Listed(digest, dests, fallback, trail, wanted)
                      <==> t in trail && v == Judge(digest, dests, fallback, t) && wanted(v)
    decreases |trail|
  {
    if trail != [] {
      var init, last := trail[..|trail| - 1], trail[|trail| - 1];
      assert trail == init + [last];
      ListedExactly(digest, dests, fallback, init, wanted);
    }
  }

  lemma {:induction false} ListedJoined(digest: Digest, dests: map<string, Objects>, fallback: Option<string>,
                                        a: seq<TrailRow>, b: seq<TrailRow>, wanted: Verdict -> bool)
    ensures Listed(digest, dests, fallback, a + b, wanted)
         == Listed(digest, dests, fallback, a, wanted) + Listed(digest, dests, fallback, b, wanted)
    decreases |b|
  {
    if b == [] {
      assert a + b == a;
    } else {
      assert (a + b)[..|a + b| - 1] == a + b[..|b| - 1];
      ListedJoined(digest, dests, fallback, a, b[..|b| - 1], wanted);
    }
  }

  // ---- what each verdict means ---------------------------------------------------------

  /** The destination a row names; an empty or missing one leaves the fallback. */
  predicate GoesTo(fallback: Option<string>, t: TrailRow, d: string) {
    (t.destination == Some(d) && d != "") || ((t.destination.None? || t.destination == Some("")) && fallback == Some(d))
  }

  /** What stands under the row's artifact at its destination. */
  ghost predicate FindsThere(dests: map<string, Objects>, fallback: Option<string>, t: TrailRow, e: Entry) {
    t.artifact.Some? && exists d :: GoesTo(fallback, t, d) && d in dests && t.artifact.value in dests[d]
                                    && dests[d][t.artifact.value] == e
  }

  /** The row deserves this verdict. */
  ghost predicate Deserves(digest: Digest, dests: map<string, Objects>, fallback: Option<string>, t: TrailRow, v: Verdict) {
    match v
    case NoBinding => t.artifact == None
    case NoDestination => t.artifact.Some? && forall d :: !GoesTo(fallback, t, d)
    case AbsentObject =>
      t.artifact.Some? && (exists d :: GoesTo(fallback, t, d)) && forall e :: !FindsThere(dests, fallback, t, e)
    case SymlinkFound => exists e :: FindsThere(dests, fallback, t, e) && e.Symlink?
    case DigestMismatch =>
      exists e :: FindsThere(dests, fallback, t, e) && e.File? && digest(e.bytes) != t.artifact.value
    case LengthMismatch =>
      exists e :: FindsThere(dests, fallback, t, e) && e.File? && digest(e.bytes) == t.artifact.value
                  && t.length.Some? && t.length.value != |e.bytes|
    case Verified =>
      exists e :: FindsThere(dests, fallback, t, e) && e.File? && digest(e.bytes) == t.artifact.value
                  && (t.length.Some? ==> t.length.value == |e.bytes|)
  }

  lemma JudgeExactly(digest: Digest, dests: map<string, Objects>, fallback: Option<string>, t: TrailRow, v: Verdict)
    ensures Judge(digest, dests, fallback, t) == v <==> Deserves(digest, dests, fallback, t, v)
  {
    var dest := if t.destination.Some? && t.destination.value != "" then t.destination else fallback;
    assert forall d :: GoesTo(fallback, t, d) <==> dest == Some(d);
    if t.artifact.Some? && dest.Some? {
      var d := dest.value;
      assert GoesTo(fallback, t, d);
      if d in dests && t.artifact.value in dests[d] {
        assert FindsThere(dests, fallback, t, dests[d][t.artifact.value]);
        assert forall e :: FindsThere(dests, fallback, t, e) ==> e == dests[d][t.artifact.value];
      } else {
        assert forall e :: !FindsThere(dests, fallback, t, e);
      }
    } else {
      assert forall e :: !FindsThere(dests, fallback, t, e);
    }
  }

  /** The places of the trail whose row deserves this verdict. */
  ghost function Places(digest: Digest, dests: map<string, Objects>, fallback: Option<string>, trail: seq<TrailRow>,
                        v: Verdict): set<int> {
    set i | 0 <= i < |trail| && Deserves(digest, dests, fallback, trail[i], v)
  }

  ghost predicate FirstSymlink(digest: Digest, dests: map<string, Objects>, fallback: Option<string>,
                               trail: seq<TrailRow>, i: int) {
    && 0 <= i < |trail| && Deserves(digest, dests, fallback, trail[i], SymlinkFound)
    && forall k :: 0 <= k < i ==> !Deserves(digest, dests, fallback, trail[k], SymlinkFound)
  }

  lemma PlacesGrow(digest: Digest, dests: map<string, Objects>, fallback: Option<string>, trail: seq<TrailRow>,
                   i: int, v: Verdict)
    requires 0 <= i < |trail|
    ensures Places(digest, dests, fallback, trail[..i + 1], v)
         == Places(digest, dests, fallback, trail[..i], v)
            + (if Deserves(digest, dests, fallback, trail[i], v) then {i} else {})
  {
    hide Deserves;
  }

  lemma PlacesCounted(digest: Digest, dests: map<string, Objects>, fallback: Option<string>, trail: seq<TrailRow>,
                      i: int, v: Verdict)
    requires 0 <= i < |trail|
    ensures |Places(digest, dests, fallback, trail[..i + 1], v)|
         == |Places(digest, dests, fallback, trail[..i], v)|
            + (if Judge(digest, dests, fallback, trail[i]) == v then 1 else 0)
  {
    JudgeExactly(digest, dests, fallback, trail[i], v);
    PlacesGrow(digest, dests, fallback, trail, i, v);
    assert i !in Places(digest, dests, fallback, trail[..i], v);
    hide Places, Deserves, Judge;
  }

  /** One pass over the trail: the first symbolic link found refuses; otherwise
      every row is counted as verified, drifted or skipped, once, and for its
      own reason. */
  method VerifyArchive(digest: Digest, dests: map<string, Objects>, fallback: Option<string>, trail: seq<TrailRow>)
    returns (a: Audit)
    ensures a.SymlinkRefusal? <==> exists t :: t in trail && Deserves(digest, dests, fallback, t, SymlinkFound)
    ensures a.SymlinkRefusal? ==> exists i :: FirstSymlink(digest, dests, fallback, trail, i) && trail[i] == a.row
    ensures a.Report? ==> a.verified == |Places(digest, dests, fallback, trail, Verified)|
    ensures a.Report? ==> forall t, v :: (t, v) in a.drift <==>
      t in trail && Deserves(digest, dests, fallback, t, v) && (v.AbsentObject? || v.DigestMismatch? || v.LengthMismatch?)
    ensures a.Report? ==> forall t, v :: (t, v) in a.skipped <==>
      t in trail && Deserves(digest, dests, fallback, t, v) && (v.NoBinding? || v.NoDestination?)
    ensures a.Report? ==> a.verified + |a.drift| + |a.skipped| == |trail|
    ensures a.Report? ==> a.drift == Listed(digest, dests, fallback, trail, IsDrift)
    ensures a.Report? ==> a.skipped == Listed(digest, dests, fallback, trail, IsSkip)
  {
    hide Judge, Deserves, Places, Listed;
    a := Pass(digest, dests, fallback, trail);
    forall t, v { JudgeExactly(digest, dests, fallback, t, v); }
    ListedExactly(digest, dests, fallback, trail, IsDrift);
    ListedExactly(digest, dests, fallback, trail, IsSkip);
  }

  method Pass(digest: Digest, dests: map<string, Objects>, fallback: Option<string>, trail: seq<TrailRow>)
    returns (a: Audit)
    ensures a.SymlinkRefusal? ==> exists i :: FirstSymlink(digest, dests, fallback, trail, i) && trail[i] == a.row
    ensures a.Report? ==> forall t :: t in trail ==> Judge(digest, dests, fallback, t) != SymlinkFound
    ensures a.Report? ==> a.verified == |Places(digest, dests, fallback, trail, Verified)|
    ensures a.Report? ==> a.verified + |a.drift| + |a.skipped| == |trail|
    ensures a.Report? ==> a.drift == Listed(digest, dests, fallback, trail, IsDrift)
    ensures a.Report? ==> a.skipped == Listed(digest, dests, fallback, trail, IsSkip)
  {
    hide Judge, Deserves;
    var verified := 0;
    var drift: seq<(TrailRow, Verdict)>, skipped: seq<(TrailRow, Verdict)> := [], [];
    var i := 0;
    assert Places(digest, dests, fallback, trail[..0], Verified) == {};
    hide Places;
    while i < |trail|
      invariant 0 <= i <= |trail|
      invariant verified == |Places(digest, dests, fallback, trail[..i], Verified)|
      invariant verified + |drift| + |skipped| == i
      invariant forall k :: 0 <= k < i ==> Judge(digest, dests, fallback, trail[k]) != SymlinkFound
      invariant drift == Listed(digest, dests, fallback, trail[..i], IsDrift)
      invariant skipped == Listed(digest, dests, fallback, trail[..i], IsSkip)
    {
      var t := trail[i];
      assert trail[..i + 1][..i] == trail[..i];
      var v := Judge(digest, dests, fallback, t);
      if v == SymlinkFound {
        forall k | 0 <= k <= i { JudgeExactly(digest, dests, fallback, trail[k], SymlinkFound); }
        assert FirstSymlink(digest, dests, fallback, trail, i);
        return SymlinkRefusal(t);
      }
      PlacesCounted(digest, dests, fallback, trail, i, Verified);
      if IsSkip(v) {
        skipped := skipped + [(t, v)];
      } else if IsDrift(v) {
        drift := drift + [(t, v)];
      } else {
        verified := verified + 1;
      }
      i := i + 1;
    }
    assert trail[..|trail|] == trail;
    a := Report(verified, drift, skipped);
  }

  /** The trail is sound exactly when each row is fully recorded and the audit
      verifies it; so after any history the audit is clean. */
  lemma SoundExactlyVerified(digest: Digest, dests: map<string, Objects>, fallback: Option<string>, t: TrailRow)
    ensures Sound(digest, dests, t)
         == (t.destination.Some? && t.destination.value != "" && t.length.Some?
             && Judge(digest, dests, fallback, t) == Verified)
  {}

  /** So when nothing else touches a sound trail's objects, the audit verifies
      every row. */
  lemma SoundTrailAuditsClean(digest: Digest, dests: map<string, Objects>, fallback: Option<string>, trail: seq<TrailRow>)
    requires TrailSound(digest, dests, trail)
    ensures forall t :: t in trail ==> Judge(digest, dests, fallback, t) == Verified
  {
    forall t | t in trail ensures Judge(digest, dests, fallback, t) == Verified {
      SoundExactlyVerified(digest, dests, fallback, t);
    }
  }

  /** With a digest free of collisions, what a sound row archived is the very
      content that was stored under its address. */
  lemma ArchivedContentSurvives(digest: Digest, dests: map<string, Objects>, t: TrailRow, stored: Bytes)
    requires forall a, b :: digest(a) == digest(b) ==> a == b
    requires Sound(digest, dests, t) && digest(stored) == t.artifact.value
    ensures dests[t.destination.value][t.artifact.value] == File(stored)
  {
    assert digest(dests[t.destination.value][t.artifact.value].bytes) == digest(stored);
  }
}
