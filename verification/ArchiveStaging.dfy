/** Staging an archive: copying content-addressed objects to a destination
    that may fail, be corrupt, be written by others, or lose power. */
module ArchiveStaging {
  import opened Options

  type Id = string        // a content address
  type Bytes = seq<bv8>
  type Digest = Bytes -> Id

  datatype Entry = File(bytes: Bytes) | Symlink(path: string)

  type Objects = map<Id, Entry>

  /** A row to archive and the artifact it was bound to when staging began. */
  datatype PlanRow = PlanRow(row: string, artifact: Option<Id>)

  datatype Refusal =
    | NoArtifact(row: string) | SymlinkRefused(id: Id) | CorruptObject(id: Id)
    | Unverifiable(id: Id) | Vanished(id: Id)

  datatype Staging =
    | Staged(facts: map<Id, nat>, placed: nat, deduped: nat, copied: nat)
    | Refused(why: Refusal)
    | Crashed

  /** What goes wrong: the object index at which power is lost, and whether
      that object had already been renamed into place; what the medium holds
      after a write; what others put at absent names between the passes; and what
      they put there after the second pass found the name absent. */
  datatype Faults = Faults(
    crash: Option<nat>, torn: bool, landed: (Id, Bytes) -> Bytes, appears: Objects, intrudes: Objects)

  // ---- the specification --------------------------------------------------------

  predicate Intact(digest: Digest, objects: Objects, id: Id) {
    id in objects && objects[id].File? && digest(objects[id].bytes) == id
  }

  /** Distinct artifacts in plan order. */
  function InPlanOrder(rows: seq<PlanRow>): (ids: seq<Id>)
    ensures forall id :: id in ids <==> exists r :: r in rows && r.artifact == Some(id)
    ensures forall i, j :: 0 <= i < j < |ids| ==> ids[i] != ids[j]
  {
    if rows == [] then []
    else
      var init, last := rows[..|rows| - 1], rows[|rows| - 1];
      var ids := InPlanOrder(init);
      assert rows == init + [last];
      if last.artifact.None? || last.artifact.value in ids then ids else ids + [last.artifact.value]
  }

  /** Lexicographic order of content addresses. */
  predicate AtMost(a: Id, b: Id) {
    a == "" || (b != "" && (a[0] < b[0] || (a[0] == b[0] && AtMost(a[1..], b[1..]))))
  }

  predicate FirstDifference(a: Id, b: Id, k: int) {
    0 <= k < |a| && k < |b| && a[..k] == b[..k] && a[k] < b[k]
  }

  /** The order of strings: a prefix first, else by the first difference. */
  lemma {:induction false} AtMostExactly(a: Id, b: Id)
    ensures AtMost(a, b) <==> a <= b || exists k :: FirstDifference(a, b, k)
  {
    if a != "" && b != "" {
      if a[0] == b[0] {
        AtMostExactly(a[1..], b[1..]);
        assert a == [a[0]] + a[1..] && b == [b[0]] + b[1..];
        if k :| FirstDifference(a, b, k) {
          assert k > 0 ==> a[1..][..k - 1] == a[..k][1..] && b[1..][..k - 1] == b[..k][1..];
          assert FirstDifference(a[1..], b[1..], k - 1);
        }
        if k :| FirstDifference(a[1..], b[1..], k) {
          assert a[..k + 1] == [a[0]] + a[1..][..k] && b[..k + 1] == [b[0]] + b[1..][..k];
          assert FirstDifference(a, b, k + 1);
        }
      } else {
        assert a[0] < b[0] ==> FirstDifference(a, b, 0);
        assert forall k :: FirstDifference(a, b, k) && k > 0 ==> a[..k][0] == b[..k][0];
      }
    }
  }

  lemma {:induction false} AtMostTotal(a: Id, b: Id)
    ensures AtMost(a, b) || AtMost(b, a)
  {
    if a != "" && b != "" && a[0] == b[0] {
      AtMostTotal(a[1..], b[1..]);
    }
  }

  function InsertId(id: Id, ids: seq<Id>): (r: seq<Id>) {
    if ids == [] || AtMost(id, ids[0]) then [id] + ids else [ids[0]] + InsertId(id, ids[1..])
  }

  function SortIds(ids: seq<Id>): (r: seq<Id>) {
    if ids == [] then [] else InsertId(ids[0], SortIds(ids[1..]))
  }

  ghost predicate Ascending(ids: seq<Id>) {
    forall i :: 0 <= i < |ids| - 1 ==> AtMost(ids[i], ids[i + 1])
  }

  lemma {:induction false} InsertKeeps(id: Id, ids: seq<Id>)
    ensures multiset(InsertId(id, ids)) == multiset{id} + multiset(ids)
    ensures Ascending(ids) ==> Ascending(InsertId(id, ids))
    ensures InsertId(id, ids)[0] == id || (ids != [] && InsertId(id, ids)[0] == ids[0])
  {
    if !(ids == [] || AtMost(id, ids[0])) {
      InsertKeeps(id, ids[1..]);
      AtMostTotal(id, ids[0]);
      assert ids == [ids[0]] + ids[1..];
    }
  }

  lemma {:induction false} SortKeeps(ids: seq<Id>)
    ensures multiset(SortIds(ids)) == multiset(ids) && Ascending(SortIds(ids))
  {
    if ids != [] {
      SortKeeps(ids[1..]);
      InsertKeeps(ids[0], SortIds(ids[1..]));
      assert ids == [ids[0]] + ids[1..];
    }
  }

  lemma SameMembers(a: seq<Id>, b: seq<Id>)
    requires multiset(a) == multiset(b) && forall i, j :: 0 <= i < j < |b| ==> b[i] != b[j]
    ensures forall id :: id in a <==> id in b
    ensures forall i, j :: 0 <= i < j < |a| ==> a[i] != a[j]
  {
    forall id ensures id in a <==> id in b {
      assert id in multiset(a) <==> id in multiset(b);
    }
    forall i, j | 0 <= i < j < |a| ensures a[i] != a[j] {
      if a[i] == a[j] {
        TwiceInSequence(a, i, j);
        OnceInDistinct(b, a[i]);
      }
    }
  }

  lemma TwiceInSequence(a: seq<Id>, i: nat, j: nat)
    requires i < j < |a| && a[i] == a[j]
    ensures multiset(a)[a[i]] >= 2
  {
    assert a == a[..j] + a[j..];
    assert a[i] == a[..j][i] && a[i] in a[..j] && a[i] == a[j..][0] && a[i] in a[j..];
    assert multiset(a) == multiset(a[..j]) + multiset(a[j..]);
  }

  lemma {:induction false} OnceInDistinct(b: seq<Id>, id: Id)
    requires forall i, j :: 0 <= i < j < |b| ==> b[i] != b[j]
    ensures multiset(b)[id] <= 1
  {
    if b != [] {
      OnceInDistinct(b[1..], id);
      assert b == [b[0]] + b[1..];
      assert multiset(b) == multiset{b[0]} + multiset(b[1..]);
    }
  }

  /** Distinct artifacts by content address: the order of placement. */
  function Needed(rows: seq<PlanRow>): (ids: seq<Id>)
    ensures forall id :: id in ids <==> exists r :: r in rows && r.artifact == Some(id)
    ensures forall i, j :: 0 <= i < j < |ids| ==> ids[i] != ids[j]
    ensures Ascending(ids)
  {
    var ids := InPlanOrder(rows);
    SortKeeps(ids);
    SameMembers(SortIds(ids), ids);
    SortIds(ids)
  }

  /** The needed artifacts not yet standing at the destination. */
  function Absent(ids: seq<Id>, present: set<Id>): (absent: seq<Id>)
    ensures forall id :: id in absent <==> id in ids && id !in present
  {
    if ids == [] then []
    else
      assert ids == ids[..|ids| - 1] + [ids[|ids| - 1]];
      var rest := Absent(ids[..|ids| - 1], present);
      if ids[|ids| - 1] in present then rest else rest + [ids[|ids| - 1]]
  }

  function TotalLength(ids: seq<Id>, facts: map<Id, nat>): nat
    requires forall id :: id in ids ==> id in facts
  {
    if ids == [] then 0 else TotalLength(ids[..|ids| - 1], facts) + facts[ids[|ids| - 1]]
  }

  /** No object that existed was replaced or removed. */
  predicate Preserved(before: Objects, after: Objects) {
    forall id :: id in before ==> id in after && after[id] == before[id]
  }

  /** A successful staging, `seen` being what stood there before its writes. */
  ghost predicate StagedAll(digest: Digest, seen: Objects, after: Objects, ids: seq<Id>, s: Staging)
    requires s.Staged?
  {
    && (forall id :: id in s.facts <==> id in ids)
    && (forall id :: id in ids ==> Intact(digest, after, id) && s.facts[id] == |after[id].bytes|)
    && Preserved(seen, after)
    && (forall id :: id in after ==> id in seen || id in ids)
    && s.placed == |Absent(ids, seen.Keys)|
    && s.placed + s.deduped == |ids|
    && s.copied == TotalLength(Absent(ids, seen.Keys), s.facts)
  }

  lemma NothingAbsent(present: set<Id>)
    ensures Absent([], present) == []
  {}

  lemma {:induction false} AbsentSame(ids: seq<Id>, p: set<Id>, q: set<Id>)
    requires forall id :: id in ids ==> (id in p <==> id in q)
    ensures Absent(ids, p) == Absent(ids, q)
    decreases |ids|
  {
    if ids != [] {
      AbsentSame(ids[..|ids| - 1], p, q);
      assert ids[|ids| - 1] in ids;
    }
  }

  lemma AbsentNext(done: seq<Id>, id: Id, present: set<Id>)
    ensures Absent(done + [id], present)
         == if id in present then Absent(done, present) else Absent(done, present) + [id]
  {
    assert (done + [id])[..|done|] == done;
  }

  lemma TotalNext(ids: seq<Id>, id: Id, facts: map<Id, nat>, facts': map<Id, nat>)
    requires forall x :: x in ids ==> x in facts
    requires id in facts' && forall x :: x in ids ==> x in facts' && facts'[x] == facts[x]
    ensures TotalLength(ids + [id], facts') == TotalLength(ids, facts) + facts'[id]
  {
    assert (ids + [id])[..|ids|] == ids;
    TotalSame(ids, facts, facts');
  }

  lemma {:induction false} TotalSame(ids: seq<Id>, facts: map<Id, nat>, facts': map<Id, nat>)
    requires forall x :: x in ids ==> x in facts && x in facts' && facts'[x] == facts[x]
    ensures TotalLength(ids, facts') == TotalLength(ids, facts)
    decreases |ids|
  {
    if ids != [] {
      TotalSame(ids[..|ids| - 1], facts, facts');
    }
  }

  /** What placing one needed object asks of the store and the medium. */
  predicate Placeable(digest: Digest, artifacts: map<Id, Bytes>, faults: Faults, id: Id) {
    id in artifacts && digest(faults.landed(id, artifacts[id])) == id
  }

  /** An object standing or placed under `id` will verify. */
  predicate WillHold(digest: Digest, seen: Objects, artifacts: map<Id, Bytes>, faults: Faults, id: Id) {
    if id in seen then Intact(digest, seen, id) else Placeable(digest, artifacts, faults, id)
  }

  predicate NoCrashIn(faults: Faults, n: nat) {
    faults.crash.None? || faults.crash.value >= n
  }

  /** What stands at the destination when the second pass begins. */
  function Seen(before: Objects, appears: Objects): Objects {
    before + (appears - before.Keys)
  }

  /** Exactly when staging succeeds. */
  ghost predicate Stageable(digest: Digest, before: Objects, rows: seq<PlanRow>, artifacts: map<Id, Bytes>, faults: Faults) {
    && (forall r :: r in rows ==> r.artifact.Some?)
    && NoCrashIn(faults, |Needed(rows)|)
    && (forall id :: id in Needed(rows) ==> WillHold(digest, Seen(before, faults.appears), artifacts, faults, id))
  }

  /** Every row has an artifact and everything already standing is intact. */
  ghost predicate SoundStart(digest: Digest, before: Objects, rows: seq<PlanRow>) {
    && (forall r :: r in rows ==> r.artifact.Some?)
    && (forall id :: id in Needed(rows) && id in before ==> Intact(digest, before, id))
  }

  // ---- how far the second pass has come -------------------------------------------

  ghost predicate AllIntact(digest: Digest, objects: Objects, facts: map<Id, nat>) {
    forall id :: id in facts ==> Intact(digest, objects, id) && facts[id] == |objects[id].bytes|
  }

  /** The facts cover what was verified and what is done, and are true. */
  ghost predicate Progress(digest: Digest, seen: Objects, objects: Objects, done: seq<Id>, verified: set<Id>,
                           facts: map<Id, nat>) {
    && Preserved(seen, objects)
    && (forall id :: id in objects ==> id in seen || id in done)
    && (forall id :: id in facts <==> id in verified || id in done)
    && AllIntact(digest, objects, facts)
  }

  ghost predicate Figures(seen: set<Id>, done: seq<Id>, verified: set<Id>, already: nat, facts: map<Id, nat>,
                          placed: nat, deduped: nat, copied: nat) {
    && (forall id :: id in done ==> id in facts)
    && placed == |Absent(done, seen)|
    && deduped + |Absent(done, seen)| == already + |Absent(done, verified)|
    && copied == TotalLength(Absent(done, seen), facts)
  }

  lemma ProgressFacts(digest: Digest, seen: Objects, objects: Objects, done: seq<Id>, verified: set<Id>, facts: map<Id, nat>)
    requires Progress(digest, seen, objects, done, verified, facts)
    ensures Preserved(seen, objects) && forall id :: id in objects ==> id in seen || id in done
    ensures forall id :: id in facts <==> id in verified || id in done
  {}

  /** Why an object that will not verify is refused. */
  function Why(digest: Digest, objects: Objects, artifacts: map<Id, Bytes>, id: Id): Refusal {
    if id in objects then (if objects[id].Symlink? then SymlinkRefused(id) else CorruptObject(id))
    else if id !in artifacts then Vanished(id) else Unverifiable(id)
  }

  /** The first standing object that does not verify. */
  ghost predicate FirstCorrupt(digest: Digest, objects: Objects, ids: seq<Id>, i: nat) {
    && i < |ids| && ids[i] in objects && !Intact(digest, objects, ids[i])
    && forall id :: id in ids[..i] && id in objects ==> Intact(digest, objects, id)
  }

  /** The needed names at which somebody's object is replaced: absent when they
      were looked at, and no longer absent at the rename. */
  function Replaced(seen: set<Id>, ids: seq<Id>, artifacts: map<Id, Bytes>, faults: Faults): set<Id> {
    set id | id in ids && id !in seen && id in artifacts && id in faults.intrudes
  }

  lemma ReplacedNext(seen: set<Id>, ids: seq<Id>, i: nat, artifacts: map<Id, Bytes>, faults: Faults)
    requires i < |ids|
    ensures Replaced(seen, ids[..i + 1], artifacts, faults)
         == Replaced(seen, ids[..i], artifacts, faults)
            + if ids[i] !in seen && ids[i] in artifacts && ids[i] in faults.intrudes then {ids[i]} else {}
    ensures Replaced(seen, ids[..i + 1], artifacts, faults) <= Replaced(seen, ids, artifacts, faults)
  {
    assert ids[..i + 1] == ids[..i] + [ids[i]];
  }

  /** Power is lost at an object after all before it verified. */
  ghost predicate CrashStrikes(digest: Digest, seen: Objects, ids: seq<Id>, artifacts: map<Id, Bytes>, faults: Faults) {
    && faults.crash.Some? && faults.crash.value < |ids|
    && forall id :: id in ids[..faults.crash.value] ==> WillHold(digest, seen, artifacts, faults, id)
  }

  /** The second pass is refused at its `i`-th object. */
  ghost predicate RefusedAt(digest: Digest, seen: Objects, objects: Objects, ids: seq<Id>, artifacts: map<Id, Bytes>,
                            faults: Faults, why: Refusal, i: nat) {
    && StoppedAt(digest, seen, objects, ids, i) && NoCrashIn(faults, i + 1)
    && !WillHold(digest, seen, artifacts, faults, ids[i]) && why == Why(digest, seen, artifacts, ids[i])
  }

  /** Where a pass that did not complete stopped: everything before is verified,
      nothing after has been touched. */
  ghost predicate StoppedAt(digest: Digest, seen: Objects, objects: Objects, ids: seq<Id>, i: nat) {
    && i < |ids|
    && (forall id :: id in ids[..i] ==> Intact(digest, objects, id))
    && Preserved(seen, objects)
    && (forall id :: id in objects ==> id in seen || id in ids[..i + 1])
  }

  /** Whatever the last object came to, the pass stopped there. */
  lemma StopsHere(digest: Digest, seen: Objects, before: Objects, after: Objects, ids: seq<Id>, i: nat,
                  verified: set<Id>, facts: map<Id, nat>)
    requires i < |ids| && Progress(digest, seen, before, ids[..i], verified, facts)
    requires Preserved(before, after) && forall id :: id in after ==> id in before || id == ids[i]
    ensures StoppedAt(digest, seen, after, ids, i)
    ensures Preserved(seen, after) && forall id :: id in after ==> id in seen || id in ids
  {
    assert ids[..i + 1] == ids[..i] + [ids[i]];
  }

  /** An object not yet done stands exactly as it did at the start. */
  lemma NextUntouched(digest: Digest, seen: Objects, objects: Objects, done: seq<Id>, verified: set<Id>,
                      facts: map<Id, nat>, id: Id, artifacts: map<Id, Bytes>, faults: Faults)
    requires Progress(digest, seen, objects, done, verified, facts) && id !in done
    ensures id in objects <==> id in seen
    ensures id in facts <==> id in verified
    ensures WillHold(digest, objects, artifacts, faults, id) == WillHold(digest, seen, artifacts, faults, id)
    ensures Why(digest, objects, artifacts, id) == Why(digest, seen, artifacts, id)
    ensures id in facts && verified <= seen.Keys ==> WillHold(digest, seen, artifacts, faults, id)
  {}

  lemma StepKnown(digest: Digest, seen: Objects, objects: Objects, done: seq<Id>, id: Id, verified: set<Id>, already: nat,
                  facts: map<Id, nat>, placed: nat, deduped: nat, copied: nat)
    requires Progress(digest, seen, objects, done, verified, facts)
    requires Figures(seen.Keys, done, verified, already, facts, placed, deduped, copied)
    requires id in verified && verified <= seen.Keys
    ensures Progress(digest, seen, objects, done + [id], verified, facts)
    ensures Figures(seen.Keys, done + [id], verified, already, facts, placed, deduped, copied)
  {
    AbsentNext(done, id, seen.Keys);
    AbsentNext(done, id, verified);
  }

  lemma StepFound(digest: Digest, seen: Objects, objects: Objects, done: seq<Id>, id: Id, verified: set<Id>, already: nat,
                  facts: map<Id, nat>, placed: nat, deduped: nat, copied: nat)
    requires Progress(digest, seen, objects, done, verified, facts)
    requires Figures(seen.Keys, done, verified, already, facts, placed, deduped, copied)
    requires id !in verified && id !in done && id in seen && Intact(digest, objects, id)
    ensures var facts' := facts[id := |objects[id].bytes|];
            Progress(digest, seen, objects, done + [id], verified, facts')
            && Figures(seen.Keys, done + [id], verified, already, facts', placed, deduped + 1, copied)
  {
    AbsentNext(done, id, seen.Keys);
    AbsentNext(done, id, verified);
    TotalSame(Absent(done, seen.Keys), facts, facts[id := |objects[id].bytes|]);
  }

  lemma StepPlaced(digest: Digest, seen: Objects, objects: Objects, done: seq<Id>, id: Id, verified: set<Id>, already: nat,
                   facts: map<Id, nat>, placed: nat, deduped: nat, copied: nat, data: Bytes)
    requires Progress(digest, seen, objects, done, verified, facts)
    requires Figures(seen.Keys, done, verified, already, facts, placed, deduped, copied)
    requires id !in verified && id !in done && id !in objects && id !in seen && digest(data) == id
    ensures var facts' := facts[id := |data|];
            Progress(digest, seen, objects[id := File(data)], done + [id], verified, facts')
            && Figures(seen.Keys, done + [id], verified, already, facts', placed + 1, deduped, copied + |data|)
  {
    hide Progress, Figures;
    ProgressPlaced(digest, seen, objects, done, id, verified, facts, data);
    FiguresPlaced(seen.Keys, done, id, verified, already, facts, placed, deduped, copied, |data|);
  }

  lemma ProgressPlaced(digest: Digest, seen: Objects, objects: Objects, done: seq<Id>, id: Id, verified: set<Id>,
                       facts: map<Id, nat>, data: Bytes)
    requires Progress(digest, seen, objects, done, verified, facts)
    requires id !in objects && id !in seen && digest(data) == id
    ensures Progress(digest, seen, objects[id := File(data)], done + [id], verified, facts[id := |data|])
  {}

  lemma FiguresPlaced(seen: set<Id>, done: seq<Id>, id: Id, verified: set<Id>, already: nat, facts: map<Id, nat>,
                      placed: nat, deduped: nat, copied: nat, n: nat)
    requires Figures(seen, done, verified, already, facts, placed, deduped, copied)
    requires id !in verified && id !in done && id !in seen
    ensures Figures(seen, done + [id], verified, already, facts[id := n], placed + 1, deduped, copied + n)
  {
    AbsentNext(done, id, seen);
    AbsentNext(done, id, verified);
    TotalNext(Absent(done, seen), id, facts, facts[id := n]);
  }

  lemma Complete(digest: Digest, seen: Objects, objects: Objects, ids: seq<Id>, verified: set<Id>, already: nat,
                 facts: map<Id, nat>, placed: nat, deduped: nat, copied: nat)
    requires Progress(digest, seen, objects, ids, verified, facts)
    requires Figures(seen.Keys, ids, verified, already, facts, placed, deduped, copied)
    requires already + |Absent(ids, verified)| == |ids| && forall id :: id in verified ==> id in ids
    ensures StagedAll(digest, seen, objects, ids, Staged(facts, placed, deduped, copied))
  {}

  // ---- the destination -----------------------------------------------------------

  class Destination {
    const digest: Digest
    var objects: Objects
    ghost var replaced: set<Id>     // names at which somebody's object was replaced

    constructor (digest: Digest, objects: Objects)
      ensures this.digest == digest && this.objects == objects && replaced == {}
    {
      this.digest := digest;
      this.objects := objects;
      replaced := {};
    }

    /** An object already standing under a needed address is read back. */
    method VerifyPreexisting(id: Id) returns (why: Option<Refusal>, length: nat)
      requires id in objects
      ensures why.None? <==> Intact(digest, objects, id)
      ensures why.None? ==> length == |objects[id].bytes|
      ensures why.Some? ==> why.value == Why(digest, objects, map[], id)
    {
      if objects[id].Symlink? {
        return Some(SymlinkRefused(id)), 0;
      }
      if digest(objects[id].bytes) != id {
        return Some(CorruptObject(id)), 0;
      }
      return None, |objects[id].bytes|;
    }

    /** The atomic rename, which replaces whatever stands at the name by then,
        and the read-back against the content address. */
    method PlaceObject(id: Id, landed: Bytes) returns (why: Option<Refusal>, length: nat)
      modifies this
      ensures objects == old(objects)[id := File(landed)]
      ensures replaced == old(replaced) + if id in old(objects) then {id} else {}
      ensures why.None? <==> Intact(digest, objects, id)
      ensures why == if digest(landed) == id then None else Some(Unverifiable(id))
      ensures why.None? ==> length == |landed|
    {
      replaced := replaced + if id in objects then {id} else {};
      objects := objects[id := File(landed)];
      if digest(landed) != id {
        return Some(Unverifiable(id)), 0;
      }
      return None, |landed|;
    }

    /** Pass 1: every needed object already there is verified; nothing is
        placed, so a refusal leaves the destination as it was. */
    method VerifyAll(ids: seq<Id>) returns (why: Option<Refusal>, facts: map<Id, nat>, deduped: nat)
      requires forall i, j :: 0 <= i < j < |ids| ==> ids[i] != ids[j]
      ensures why.None? <==> forall id :: id in ids && id in objects ==> Intact(digest, objects, id)
      ensures why.None? ==> forall id :: id in facts <==> id in ids && id in objects
      ensures why.None? ==> AllIntact(digest, objects, facts)
      ensures why.None? ==> deduped + |Absent(ids, facts.Keys)| == |ids|
      ensures why.Some? ==> exists i: nat ::
                FirstCorrupt(digest, objects, ids, i) && why.value == Why(digest, objects, map[], ids[i])
    {
      hide Absent;
      facts, deduped := map[], 0;
      var i := 0;
      NothingAbsent(objects.Keys);
      while i < |ids|
        invariant 0 <= i <= |ids|
        invariant forall id :: id in ids[..i] && id in objects ==> Intact(digest, objects, id)
        invariant forall id :: id in facts <==> id in ids[..i] && id in objects
        invariant forall id :: id in facts ==> Intact(digest, objects, id) && facts[id] == |objects[id].bytes|
        invariant deduped + |Absent(ids[..i], objects.Keys)| == i
      {
        AbsentNext(ids[..i], ids[i], objects.Keys);
        assert ids[..i + 1] == ids[..i] + [ids[i]];
        if ids[i] in objects {
          var bad, length := VerifyPreexisting(ids[i]);
          if bad.Some? {
            assert FirstCorrupt(digest, objects, ids, i);
            return bad, facts, deduped;
          }
          facts := facts[ids[i] := length];
          deduped := deduped + 1;
        }
        i := i + 1;
      }
      assert ids[..|ids|] == ids;
      AbsentSame(ids, objects.Keys, facts.Keys);
      why := None;
    }

    /** One object of the second pass: verify what stands there, or place it;
        somebody else may be quicker. */
    method SettleOne(id: Id, artifacts: map<Id, Bytes>, faults: Faults)
      returns (why: Option<Refusal>, length: nat, placedNow: bool)
      modifies this
      ensures why.None? <==> WillHold(digest, old(objects), artifacts, faults, id)
      ensures why.None? ==> Intact(digest, objects, id) && length == |objects[id].bytes| && placedNow == (id !in old(objects))
      ensures id in old(objects) || id !in artifacts ==> objects == old(objects)
      ensures why.None? && placedNow ==> id in artifacts && digest(faults.landed(id, artifacts[id])) == id
      ensures id !in old(objects) && id in artifacts ==>
                objects == old(objects)[id := File(faults.landed(id, artifacts[id]))]
      ensures Preserved(old(objects), objects)
      ensures forall x :: x in objects ==> x in old(objects) || x == id
      ensures why.Some? ==> why.value == Why(digest, old(objects), artifacts, id)
      ensures replaced == old(replaced)
                + if id !in old(objects) && id in artifacts && id in faults.intrudes then {id} else {}
    {
      placedNow := id !in objects;
      if !placedNow {
        why, length := VerifyPreexisting(id);
      } else if id !in artifacts {
        why, length := Some(Vanished(id)), 0;
      } else {
        if id in faults.intrudes {
          objects := objects[id := faults.intrudes[id]];
        }
        why, length := PlaceObject(id, faults.landed(id, artifacts[id]));
      }
    }

    /** Power lost at this object, before or after its rename. */
    method PowerLoss(id: Id, artifacts: map<Id, Bytes>, faults: Faults)
      modifies this
      ensures Preserved(old(objects), objects)
      ensures forall x :: x in objects ==> x in old(objects) || x == id
      ensures old(replaced) <= replaced
      ensures replaced <= old(replaced)
                + if id !in old(objects) && id in artifacts && id in faults.intrudes then {id} else {}
    {
      if id !in objects && faults.torn && id in artifacts {
        replaced := replaced + if id in faults.intrudes then {id} else {};
        objects := objects[id := File(faults.landed(id, artifacts[id]))];
      }
    }

    /** Pass 2: place what is absent, one object at a time, verifying each; an
        object that appeared since pass 1 is verified instead. */
    method PlaceAll(ids: seq<Id>, artifacts: map<Id, Bytes>, faults: Faults, verified: map<Id, nat>, already: nat)
      returns (r: Staging)
      requires forall i, j :: 0 <= i < j < |ids| ==> ids[i] != ids[j]
      requires forall id :: id in verified ==> id in ids
      requires AllIntact(digest, objects, verified)
      requires already + |Absent(ids, verified.Keys)| == |ids|
      modifies this
      ensures Preserved(old(objects), objects)
      ensures forall id :: id in objects ==> id in old(objects) || id in ids
      ensures r.Staged? ==> StagedAll(digest, old(objects), objects, ids, r)
      ensures r.Staged? <==> (NoCrashIn(faults, |ids|)
                              && forall id :: id in ids ==> WillHold(digest, old(objects), artifacts, faults, id))
      ensures r.Crashed? <==> CrashStrikes(digest, old(objects), ids, artifacts, faults)
      ensures r.Crashed? ==> StoppedAt(digest, old(objects), objects, ids, faults.crash.value)
      ensures r.Refused? ==> exists i: nat ::
                RefusedAt(digest, old(objects), objects, ids, artifacts, faults, r.why, i)
      ensures old(replaced) <= replaced <= old(replaced) + Replaced(old(objects).Keys, ids, artifacts, faults)
      ensures r.Staged? ==> replaced == old(replaced) + Replaced(old(objects).Keys, ids, artifacts, faults)
    {
      hide Absent, TotalLength, StagedAll, Figures, Progress, WillHold, Intact, StoppedAt, Preserved, AllIntact, Why,
        Replaced;
      ghost var seen := objects;
      var facts: map<Id, nat> := verified;
      var placed, deduped, copied := 0, already, 0;
      Begin(digest, seen, verified, already);
      NothingReplaced(seen.Keys, ids, artifacts, faults);
      var i := 0;
      while i < |ids|
        invariant 0 <= i <= |ids|
        invariant Progress(digest, seen, objects, ids[..i], verified.Keys, facts)
        invariant Figures(seen.Keys, ids[..i], verified.Keys, already, facts, placed, deduped, copied)
        invariant NoCrashIn(faults, i)
        invariant forall id :: id in ids[..i] ==> WillHold(digest, seen, artifacts, faults, id)
        invariant replaced == old(replaced) + Replaced(seen.Keys, ids[..i], artifacts, faults)
        invariant replaced <= old(replaced) + Replaced(seen.Keys, ids, artifacts, faults)
      {
        var id := ids[i];
        assert ids[..i + 1] == ids[..i] + [id];
        ProgressFacts(digest, seen, objects, ids[..i], verified.Keys, facts);
        NextUntouched(digest, seen, objects, ids[..i], verified.Keys, facts, id, artifacts, faults);
        ReplacedNext(seen.Keys, ids, i, artifacts, faults);
        ghost var before := objects;
        if faults.crash == Some(i) {
          PowerLoss(id, artifacts, faults);
          StopsHere(digest, seen, before, objects, ids, i, verified.Keys, facts);
          return Crashed;
        }
        if id in facts {
          StepKnown(digest, seen, objects, ids[..i], id, verified.Keys, already, facts, placed, deduped, copied);
        } else {
          var bad, length, placedNow := SettleOne(id, artifacts, faults);
          if bad.Some? {
            StopsHere(digest, seen, before, objects, ids, i, verified.Keys, facts);
            assert RefusedAt(digest, seen, objects, ids, artifacts, faults, bad.value, i);
            return Refused(bad.value);
          }
          if placedNow {
            StepPlaced(digest, seen, before, ids[..i], id, verified.Keys, already, facts, placed, deduped, copied,
                       faults.landed(id, artifacts[id]));
            copied := copied + length;
            placed := placed + 1;
          } else {
            StepFound(digest, seen, objects, ids[..i], id, verified.Keys, already, facts, placed, deduped, copied);
            deduped := deduped + 1;
          }
          facts := facts[id := length];
        }
        i := i + 1;
      }
      assert ids[..|ids|] == ids;
      ProgressFacts(digest, seen, objects, ids, verified.Keys, facts);
      r := Staged(facts, placed, deduped, copied);
      Complete(digest, seen, objects, ids, verified.Keys, already, facts, placed, deduped, copied);
    }

    /** Staging as a whole. It is refused before anything is placed exactly if a
        row has no artifact or something standing does not verify; otherwise it
        ends as the second pass does over what stands there by then. Objects are
        replaced exactly at the needed names that somebody took between the
        look and the rename. */
    method Stage(rows: seq<PlanRow>, artifacts: map<Id, Bytes>, faults: Faults) returns (r: Staging)
      modifies this
      ensures Preserved(old(objects), objects)
      ensures forall id :: id in objects ==> id in old(objects) || id in faults.appears || id in Needed(rows)
      ensures r.Staged? <==> Stageable(digest, old(objects), rows, artifacts, faults)
      ensures r.Staged? ==> StagedAll(digest, Seen(old(objects), faults.appears), objects, Needed(rows), r)
      ensures !SoundStart(digest, old(objects), rows) ==>
                && r.Refused? && objects == old(objects) && replaced == old(replaced)
                && RefusedFirst(digest, objects, rows, r.why)
      ensures SoundStart(digest, old(objects), rows) ==>
                var seen := Seen(old(objects), faults.appears);
                && (r.Crashed? <==> CrashStrikes(digest, seen, Needed(rows), artifacts, faults))
                && (r.Crashed? ==> StoppedAt(digest, seen, objects, Needed(rows), faults.crash.value))
                && (r.Refused? ==> exists i: nat ::
                      RefusedAt(digest, seen, objects, Needed(rows), artifacts, faults, r.why, i))
                && old(replaced) <= replaced <= old(replaced) + Replaced(seen.Keys, Needed(rows), artifacts, faults)
                && (r.Staged? ==> replaced == old(replaced) + Replaced(seen.Keys, Needed(rows), artifacts, faults))
    {
      hide Needed, StagedAll, WillHold, StoppedAt, RefusedAt, CrashStrikes, Replaced;
      var ids, missing := CollectIds(rows);
      if missing.Some? {
        return Refused(NoArtifact(missing.value));
      }
      var bad, facts, deduped := VerifyAll(ids);
      if bad.Some? {
        StandingMustVerify(digest, objects, rows, artifacts, faults);
        return Refused(bad.value);
      }
      objects := Seen(objects, faults.appears);
      r := PlaceAll(ids, artifacts, faults, facts, deduped);
    }
  }

  /** The first row without an artifact, or else the first standing object that
      does not verify. */
  ghost predicate RefusedFirst(digest: Digest, objects: Objects, rows: seq<PlanRow>, why: Refusal) {
    if exists i: nat :: FirstUnbound(rows, i) then
      exists i: nat :: FirstUnbound(rows, i) && why == NoArtifact(rows[i].row)
    else
      exists i: nat :: FirstCorrupt(digest, objects, Needed(rows), i)
                       && why == Why(digest, objects, map[], Needed(rows)[i])
  }

  ghost predicate FirstUnbound(rows: seq<PlanRow>, i: nat) {
    i < |rows| && rows[i].artifact.None? && forall k :: 0 <= k < i ==> rows[k].artifact.Some?
  }

  lemma InPlanNext(rows: seq<PlanRow>, i: nat)
    requires i < |rows| && rows[i].artifact.Some?
    ensures InPlanOrder(rows[..i + 1])
         == InPlanOrder(rows[..i]) + if rows[i].artifact.value in InPlanOrder(rows[..i]) then [] else [rows[i].artifact.value]
  {
    assert rows[..i + 1][..i] == rows[..i];
  }

  lemma AllBound(rows: seq<PlanRow>)
    requires forall k :: 0 <= k < |rows| ==> rows[k].artifact.Some?
    ensures Needed(rows) == SortIds(InPlanOrder(rows[..|rows|]))
    ensures forall r :: r in rows ==> r.artifact.Some?
  {
    assert rows[..|rows|] == rows;
  }

  /** The distinct artifacts, collected in plan order and then sorted; or the
      first row that has none. */
  method CollectIds(rows: seq<PlanRow>) returns (ids: seq<Id>, missing: Option<string>)
    ensures missing.None? <==> forall r :: r in rows ==> r.artifact.Some?
    ensures missing.None? ==> ids == Needed(rows)
    ensures missing.Some? ==> exists i: nat :: FirstUnbound(rows, i) && rows[i].row == missing.value
  {
    hide SortIds, Ascending, InPlanOrder, Needed;
    ids := [];
    var i := 0;
    assert rows[..0] == [];
    NothingInPlan();
    while i < |rows|
      invariant 0 <= i <= |rows|
      invariant ids == InPlanOrder(rows[..i])
      invariant forall k :: 0 <= k < i ==> rows[k].artifact.Some?
    {
      if rows[i].artifact.None? {
        assert FirstUnbound(rows, i);
        return ids, Some(rows[i].row);
      }
      InPlanNext(rows, i);
      if rows[i].artifact.value !in ids {
        ids := ids + [rows[i].artifact.value];
      }
      i := i + 1;
    }
    AllBound(rows);
    ids, missing := SortIds(ids), None;
  }

  lemma NothingInPlan()
    ensures InPlanOrder([]) == []
  {}

  lemma NothingReplaced(seen: set<Id>, ids: seq<Id>, artifacts: map<Id, Bytes>, faults: Faults)
    ensures Replaced(seen, ids[..0], artifacts, faults) == {}
  {}

  lemma StandingMustVerify(digest: Digest, before: Objects, rows: seq<PlanRow>, artifacts: map<Id, Bytes>, faults: Faults)
    requires !SoundStart(digest, before, rows)
    ensures !Stageable(digest, before, rows, artifacts, faults)
  {}

  lemma Begin(digest: Digest, seen: Objects, verified: map<Id, nat>, already: nat)
    requires AllIntact(digest, seen, verified)
    ensures verified.Keys <= seen.Keys
    ensures Progress(digest, seen, seen, [], verified.Keys, verified)
    ensures Figures(seen.Keys, [], verified.Keys, already, verified, 0, already, 0)
  {}

  lemma {:induction false} AbsentNone(ids: seq<Id>, present: set<Id>)
    requires forall id :: id in ids ==> id in present
    ensures Absent(ids, present) == []
    decreases |ids|
  {
    if ids != [] {
      assert ids[|ids| - 1] in ids;
      AbsentNone(ids[..|ids| - 1], present);
    }
  }

  lemma NothingPlacedUnchanged(digest: Digest, after: Objects, again: Objects, ids: seq<Id>, t: Staging)
    requires t.Staged? && StagedAll(digest, after, again, ids, t) && forall id :: id in ids ==> id in after
    ensures again == after
  {
    forall id | id in again ensures id in after && again[id] == after[id] {}
  }

  /** Staging the same artifacts again over what a staging left, others having
      added what they like, places nothing, copies nothing and reports the same
      facts. */
  lemma RestagingPlacesNone(digest: Digest, seen: Objects, after: Objects, between: Objects, again: Objects,
                            ids: seq<Id>, s: Staging, t: Staging)
    requires s.Staged? && t.Staged? && Preserved(after, between)
    requires StagedAll(digest, seen, after, ids, s) && StagedAll(digest, between, again, ids, t)
    ensures t.placed == 0 && t.copied == 0 && t.deduped == |ids| && t.facts == s.facts && again == between
  {
    assert forall id :: id in ids ==> Intact(digest, after, id);
    AbsentNone(ids, between.Keys);
    NothingPlacedUnchanged(digest, between, again, ids, t);
    hide Intact, Absent, TotalLength;
    assert TotalLength([], t.facts) == 0 by { NothingTotal(t.facts); }
    assert forall id :: id in t.facts <==> id in s.facts;
  }

  /** Staging again asks nothing of the store or the medium: short of a power
      loss it succeeds, whatever they and the other writers do. */
  lemma RestagingSucceeds(digest: Digest, seen: Objects, after: Objects, rows: seq<PlanRow>, s: Staging,
                          artifacts: map<Id, Bytes>, faults: Faults)
    requires s.Staged? && StagedAll(digest, seen, after, Needed(rows), s)
    requires (forall r :: r in rows ==> r.artifact.Some?) && NoCrashIn(faults, |Needed(rows)|)
    ensures Stageable(digest, after, rows, artifacts, faults)
  {
    hide Needed;
    forall id | id in Needed(rows)
      ensures WillHold(digest, Seen(after, faults.appears), artifacts, faults, id)
    {
      assert Intact(digest, after, id);
    }
  }

  /** Staging twice: `between` is what the first left. The second time succeeds
      short of a power loss, places and copies nothing, reports the same facts
      and leaves what stood there. */
  method StageTwice(dest: Destination, rows: seq<PlanRow>, artifacts: map<Id, Bytes>, faults: Faults,
                    laterArtifacts: map<Id, Bytes>, laterFaults: Faults)
    returns (first: Staging, again: Staging, ghost between: Objects)
    modifies dest
    ensures first.Staged? <==> Stageable(dest.digest, old(dest.objects), rows, artifacts, faults)
    ensures first.Staged? ==>
              StagedAll(dest.digest, Seen(old(dest.objects), faults.appears), between, Needed(rows), first)
    ensures first.Staged? ==> (again.Staged? <==> NoCrashIn(laterFaults, |Needed(rows)|))
    ensures first.Staged? && again.Staged? ==>
              && again == Staged(first.facts, 0, |Needed(rows)|, 0)
              && dest.objects == Seen(between, laterFaults.appears)
  {
    hide StagedAll, Needed, WillHold, StoppedAt, RefusedAt, CrashStrikes, Replaced, RefusedFirst, SoundStart;
    first := dest.Stage(rows, artifacts, faults);
    between := dest.objects;
    again := dest.Stage(rows, laterArtifacts, laterFaults);
    if first.Staged? {
      ghost var seen := Seen(old(dest.objects), faults.appears);
      if NoCrashIn(laterFaults, |Needed(rows)|) {
        RestagingSucceeds(dest.digest, seen, between, rows, first, laterArtifacts, laterFaults);
      }
      if again.Staged? {
        RestagingPlacesNone(dest.digest, seen, between, Seen(between, laterFaults.appears), dest.objects, Needed(rows),
                            first, again);
      }
    }
  }

  lemma NothingTotal(facts: map<Id, nat>)
    ensures TotalLength([], facts) == 0
  {}

  /** Somebody's object, put at an absent name after staging looked there, is
      replaced although the staging succeeds. */
  method Overtaken(digest: Digest, data: Bytes, theirs: Entry) returns (dest: Destination, r: Staging)
    ensures r.Staged? && dest.replaced == {digest(data)}
  {
    var id := digest(data);
    var rows := [PlanRow("row", Some(id))];
    var faults := Faults(None, false, (i: Id, b: Bytes) => b, map[], map[id := theirs]);
    dest := new Destination(digest, map[]);
    OneNeeded(rows[0], id);
    hide Needed, StagedAll, StoppedAt, RefusedAt, CrashStrikes, RefusedFirst;
    assert Seen(map[], map[]) == map[];
    assert WillHold(digest, map[], map[id := data], faults, id);
    assert Stageable(digest, map[], rows, map[id := data], faults);
    r := dest.Stage(rows, map[id := data], faults);
    assert Replaced({}, [id], map[id := data], faults) == {id};
  }

  lemma OneNeeded(row: PlanRow, id: Id)
    requires row.artifact == Some(id)
    ensures Needed([row]) == [id]
  {
    OneInPlan(row, id);
    OneSorted(id);
  }

  lemma OneInPlan(row: PlanRow, id: Id)
    requires row.artifact == Some(id)
    ensures InPlanOrder([row]) == [id]
  {
    assert [row][..0] == [] && InPlanOrder([]) == [];
    assert [] + [id] == [id];
  }

  lemma OneSorted(id: Id)
    ensures SortIds([id]) == [id]
  {
    assert [id][1..] == [] && SortIds([]) == [];
    assert InsertId(id, []) == [id] + [] == [id];
  }
}
