/** The bounded procedure language that bench procedures are written in:
    steps, the references their inputs carry, their identifiers and their
    worst-case cost. */
module Procedures {

  /** A structured input value. `Ref` is the `$stg_ref` directive. */
  datatype Value =
    | Scalar
    | Array(items: seq<Value>)
    | Object(members: seq<Member>)
    | Ref(step: string)

  datatype Member = Member(key: string, value: Value)

  datatype Predicate = Predicate(sample: string, minimum: real, maximum: real)

  datatype Step =
    | Invoke(id: string, role: string, input: Value, timeout: nat)
    | Read(id: string, role: string, timeout: nat)
    | Write(id: string, role: string, value: Value, timeout: nat)
    | Capture(id: string, role: string, timeout: nat)
    | Delay(id: string, duration: nat)
    | Sample(id: string, source: string)
    | Assert(id: string, pred: Predicate)
    | If(id: string, pred: Predicate, thn: seq<Step>, els: seq<Step>)
    | Repeat(id: string, count: nat, body: seq<Step>)

  datatype Kind =
    | InvokeKind | ReadKind | WriteKind | CaptureKind | DelayKind
    | SampleKind | AssertKind | IfKind | RepeatKind

  datatype Procedure = Procedure(roles: seq<string>, steps: seq<Step>, maxBody: nat)

  function KindOf(s: Step): Kind {
    match s
    case Invoke(_, _, _, _) => InvokeKind
    case Read(_, _, _) => ReadKind
    case Write(_, _, _, _) => WriteKind
    case Capture(_, _, _) => CaptureKind
    case Delay(_, _) => DelayKind
    case Sample(_, _) => SampleKind
    case Assert(_, _) => AssertKind
    case If(_, _, _, _) => IfKind
    case Repeat(_, _, _) => RepeatKind
  }

  /** Steps whose recorded result is an operation result. */
  predicate IsOperation(k: Kind) {
    k.InvokeKind? || k.ReadKind? || k.WriteKind? || k.CaptureKind?
  }

  predicate HasRole(s: Step) {
    s.Invoke? || s.Read? || s.Write? || s.Capture?
  }

  /** A kind tells exactly which step it is the kind of. */
  lemma KindsTell(s: Step)
    ensures IsOperation(KindOf(s)) <==> s.Invoke? || s.Read? || s.Write? || s.Capture?
    ensures KindOf(s) == InvokeKind <==> s.Invoke?
    ensures KindOf(s) == ReadKind <==> s.Read?
    ensures KindOf(s) == WriteKind <==> s.Write?
    ensures KindOf(s) == CaptureKind <==> s.Capture?
    ensures KindOf(s) == DelayKind <==> s.Delay?
    ensures KindOf(s) == SampleKind <==> s.Sample?
    ensures KindOf(s) == AssertKind <==> s.Assert?
    ensures KindOf(s) == IfKind <==> s.If?
    ensures KindOf(s) == RepeatKind <==> s.Repeat?
  {}

  /** Every step named by a `$stg_ref` under a value, in document order. */
  function Refs(v: Value): seq<string> {
    match v
    case Scalar => []
    case Ref(step) => [step]
    case Array(items) => ItemRefs(items)
    case Object(members) => MemberRefs(members)
  }

  function ItemRefs(items: seq<Value>): seq<string> {
    if items == [] then [] else Refs(items[0]) + ItemRefs(items[1..])
  }

  function MemberRefs(members: seq<Member>): seq<string> {
    if members == [] then [] else Refs(members[0].value) + MemberRefs(members[1..])
  }

  // ---- what the references of a value are --------------------------------

  /** Indices from a value down through array items and object members. */
  type Path = seq<nat>

  /** At the end of this path stands a reference to step `r`. */
  predicate RefAt(v: Value, path: Path, r: string)
    decreases path
  {
    match v
    case Scalar => false
    case Ref(step) => path == [] && step == r
    case Array(items) => path != [] && path[0] < |items| && RefAt(items[path[0]], path[1..], r)
    case Object(members) => path != [] && path[0] < |members| && RefAt(members[path[0]].value, path[1..], r)
  }

  /** Document order of two paths. */
  predicate Earlier(p: Path, q: Path) {
    p != [] && q != [] && (p[0] < q[0] || (p[0] == q[0] && Earlier(p[1..], q[1..])))
  }

  /** These paths hold exactly the references of a value, in document order. */
  ghost predicate Lists(v: Value, paths: seq<Path>, names: seq<string>) {
    && |paths| == |names|
    && (forall i :: 0 <= i < |paths| ==> RefAt(v, paths[i], names[i]))
    && (forall i, j :: 0 <= i < j < |paths| ==> Earlier(paths[i], paths[j]))
    && (forall path, r :: RefAt(v, path, r) ==> path in paths)
  }

  function Under(i: nat, paths: seq<Path>): (under: seq<Path>)
    ensures |under| == |paths| && forall k :: 0 <= k < |paths| ==> under[k] == [i] + paths[k]
  {
    seq(|paths|, k requires 0 <= k < |paths| => [i] + paths[k])
  }

  /** The references below the elements from `i` on. */
  ghost predicate ListsFrom(v: Value, i: nat, paths: seq<Path>, names: seq<string>) {
    && |paths| == |names|
    && (forall k :: 0 <= k < |paths| ==> RefAt(v, paths[k], names[k]) && paths[k] != [] && paths[k][0] >= i)
    && (forall j, k :: 0 <= j < k < |paths| ==> Earlier(paths[j], paths[k]))
    && (forall path, r :: RefAt(v, path, r) && path != [] && path[0] >= i ==> path in paths)
  }

  function ElementOf(v: Value, i: nat): Value
    requires (v.Array? && i < |v.items|) || (v.Object? && i < |v.members|)
  {
    if v.Array? then v.items[i] else v.members[i].value
  }

  function Size(v: Value): nat {
    if v.Array? then |v.items| else if v.Object? then |v.members| else 0
  }

  lemma BelowElement(v: Value, i: nat, path: Path, r: string)
    requires i < Size(v)
    ensures RefAt(v, [i] + path, r) <==> RefAt(ElementOf(v, i), path, r)
  {
    assert ([i] + path)[1..] == path;
  }

  lemma JoinLists(v: Value, i: nat, first: seq<Path>, names: seq<string>, rest: seq<Path>, more: seq<string>)
    requires i < Size(v) && Lists(ElementOf(v, i), first, names) && ListsFrom(v, i + 1, rest, more)
    ensures ListsFrom(v, i, Under(i, first) + rest, names + more)
  {
    var paths := Under(i, first) + rest;
    forall k | 0 <= k < |paths| ensures RefAt(v, paths[k], (names + more)[k]) && paths[k] != [] && paths[k][0] >= i {
      if k < |first| { BelowElement(v, i, first[k], names[k]); }
    }
    forall j, k | 0 <= j < k < |paths| ensures Earlier(paths[j], paths[k]) {
      if k < |first| {
        assert paths[j][1..] == first[j] && paths[k][1..] == first[k];
      }
    }
    forall path, r | RefAt(v, path, r) && path != [] && path[0] >= i ensures path in paths {
      if path[0] == i {
        assert path == [i] + path[1..];
        BelowElement(v, i, path[1..], r);
        var k :| 0 <= k < |first| && first[k] == path[1..];
        assert paths[k] == path;
      }
    }
  }

  /** What `Refs` collects: each reference anywhere in the value, through arrays
      and objects, once per occurrence and in document order. */
  lemma {:induction false} RefsInDocumentOrder(v: Value) returns (paths: seq<Path>)
    ensures Lists(v, paths, Refs(v))
    decreases v, Size(v) + 1
  {
    match v
    case Scalar => paths := [];
    case Ref(step) =>
      paths := [[]];
      assert RefAt(v, [], step);
    case Array(items) =>
      paths := ItemsInOrder(v, 0);
      assert items[0..] == items;
    case Object(members) =>
      paths := MembersInOrder(v, 0);
      assert members[0..] == members;
  }

  lemma {:induction false} ItemsInOrder(v: Value, i: nat) returns (paths: seq<Path>)
    requires v.Array? && i <= |v.items|
    ensures ListsFrom(v, i, paths, ItemRefs(v.items[i..]))
    decreases v, Size(v) - i
  {
    if i == |v.items| {
      paths := [];
    } else {
      var first := RefsInDocumentOrder(v.items[i]);
      var rest := ItemsInOrder(v, i + 1);
      assert v.items[i..][1..] == v.items[i + 1..];
      JoinLists(v, i, first, Refs(v.items[i]), rest, ItemRefs(v.items[i + 1..]));
      paths := Under(i, first) + rest;
    }
  }

  lemma {:induction false} MembersInOrder(v: Value, i: nat) returns (paths: seq<Path>)
    requires v.Object? && i <= |v.members|
    ensures ListsFrom(v, i, paths, MemberRefs(v.members[i..]))
    decreases v, Size(v) - i
  {
    if i == |v.members| {
      paths := [];
    } else {
      var first := RefsInDocumentOrder(v.members[i].value);
      var rest := MembersInOrder(v, i + 1);
      assert v.members[i..][1..] == v.members[i + 1..];
      JoinLists(v, i, first, Refs(v.members[i].value), rest, MemberRefs(v.members[i + 1..]));
      paths := Under(i, first) + rest;
    }
  }

  /** Somewhere in the value stands a reference to step `r`. */
  ghost predicate Mentions(v: Value, r: string) {
    exists path :: RefAt(v, path, r)
  }

  lemma RefsExactly(v: Value, r: string)
    ensures r in Refs(v) <==> Mentions(v, r)
  {
    var paths := RefsInDocumentOrder(v);
    if Mentions(v, r) {
      var path :| RefAt(v, path, r);
      var i :| 0 <= i < |paths| && paths[i] == path;
      OneRefAt(v, path, r, Refs(v)[i]);
    }
    if r in Refs(v) {
      var i :| 0 <= i < |Refs(v)| && Refs(v)[i] == r;
      assert RefAt(v, paths[i], Refs(v)[i]);
    }
  }

  lemma {:induction false} OneRefAt(v: Value, path: Path, r: string, q: string)
    requires RefAt(v, path, r) && RefAt(v, path, q)
    ensures r == q
    decreases path
  {
    match v
    case Array(items) => OneRefAt(items[path[0]], path[1..], r, q);
    case Object(members) => OneRefAt(members[path[0]].value, path[1..], r, q);
    case _ =>
  }

  /** The references of a step's own input: only an invoke input and a
      written value may carry them. */
  function StepRefs(s: Step): seq<string> {
    match s
    case Invoke(_, _, input, _) => Refs(input)
    case Write(_, _, value, _) => Refs(value)
    case _ => []
  }

  /** A step reads the result of step `r`: somewhere in an invoke's input or a
      write's value stands a reference to it. */
  ghost predicate Reads(s: Step, r: string) {
    || (s.Invoke? && Mentions(s.input, r))
    || (s.Write? && Mentions(s.value, r))
  }

  lemma StepRefsExactly(s: Step, r: string)
    ensures r in StepRefs(s) <==> Reads(s, r)
  {
    if s.Invoke? { RefsExactly(s.input, r); }
    else if s.Write? { RefsExactly(s.value, r); }
  }

  /** Every step identifier, nested blocks included, in document order. */
  function CollectIds(steps: seq<Step>): seq<string> {
    if steps == [] then [] else StepIds(steps[0]) + CollectIds(steps[1..])
  }

  function StepIds(s: Step): seq<string> {
    match s
    case If(id, _, thn, els) => [id] + CollectIds(thn) + CollectIds(els)
    case Repeat(id, _, body) => [id] + CollectIds(body)
    case _ => [s.id]
  }

  predicate Distinct(ids: seq<string>) {
    forall i, j :: 0 <= i < j < |ids| ==> ids[i] != ids[j]
  }

  /** The schema asks every repeat for a count of at least one. */
  predicate PositiveCounts(steps: seq<Step>) {
    steps == [] || (StepPositive(steps[0]) && PositiveCounts(steps[1..]))
  }

  predicate StepPositive(s: Step) {
    match s
    case If(_, _, thn, els) => PositiveCounts(thn) && PositiveCounts(els)
    case Repeat(_, count, body) => count >= 1 && PositiveCounts(body)
    case _ => true
  }

  // ---- worst-case cost, in milliseconds ---------------------------------

  const CAPTURE_EPILOGUE_FLOOR_MS: nat := 5000

  /** What one leaf step may take by itself. Samples and assertions run in
      the gateway and cost nothing; a capture also owns its epilogue floor. */
  function Allowance(s: Step): nat {
    match s
    case Invoke(_, _, _, timeout) => timeout
    case Read(_, _, timeout) => timeout
    case Write(_, _, _, timeout) => timeout
    case Capture(_, _, timeout) => timeout + CAPTURE_EPILOGUE_FLOOR_MS
    case Delay(_, duration) => duration
    case _ => 0
  }

  function Max(a: nat, b: nat): nat {
    if a < b then b else a
  }

  function Bound(steps: seq<Step>): nat {
    if steps == [] then 0 else StepBound(steps[0]) + Bound(steps[1..])
  }

  function StepBound(s: Step): nat {
    match s
    case If(_, _, thn, els) => Max(Bound(thn), Bound(els))
    case Repeat(_, count, body) => count * Bound(body)
    case _ => Allowance(s)
  }
}
