# Benchweave verification model

Benchweave is a gateway for electronics test benches: it admits bounded procedures, executes them
against devices, keeps a content-addressed evidence store, and ships the operator tools around that
store. This project models its hardest logic in Dafny and proves what that logic promises. Everything
is checked by `dafny verify dfyconfig.toml`.

## The modules

**Procedure admission and execution** is the largest part.

- `Procedures` is the procedure language: nine step kinds, the references their inputs carry, their
  identifiers and their worst-case cost.
- `StaticCheck` is the document checker's one walk over a procedure (a class with the error list and
  the identifiers met so far), proved against functions, and what a clean report means for the tree;
  `ReportCount` traces every error of a report back to the steps at fault.
- `Executor` is how the gateway carries a body out: the walk over steps, iterations and branches, the
  chain of result scopes, the deadline check before each step, the lookups a step makes and the event
  order. Everything the gateway does not control (durations, host time between steps, failures,
  predicate verdicts) comes from an arbitrary `World`, so a lemma over all worlds is a lemma over
  every run.
- `ScopeSoundness` proves lexical scope sound over every run and says exactly which procedures never
  meet an unresolved name. `BoundExactness` proves the worst-case bound sound and attained, and gives
  the exact condition under which no timely run meets its deadline check. `ProductionAdmission`
  relates the gateway's own admission to both.

**Analysis and publishing scripts.**

- `DependencyClosure`: the package closure (depth-first search with a visited set and a path set) and
  the bench's resource check (the same search without the memory) report a cycle and a missing node
  for exactly the graphs that have one.
- `ConstantFold`: the version-literal counter's partial evaluator against evaluation; and in
  `FoldCompleteness` exactly which expressions it answers for.
- `TimestampToken`: tag/length/value decoding, the structural search for the TSTInfo and the fields
  taken from it, which `TokenFields` states by position in the bytes and in the tree. A child element is bounded by the buffer and not by its parent, as in the code, so
  termination goes by the distance to the end of the buffer.
- `GuardedRun`: a reader thread and a waiting loop over one shared dictionary, for every interleaving.

**Operator tools.**

- `ArchiveStaging` and `Disposition`: the two-pass copy of content-addressed objects to a destination
  that may fail, be corrupt, be written by others or lose power; the one store transaction after it;
  and the read-only audit of the archived trail.
- `LogTail`: the capped, doubling window against splitting the whole file.
- `GatewayIdentity`: the pidfile verdicts over histories of starts, crashes, stops and recycled pids.
- `BackupRestore`: backup, the digest gate, and the interruptible directory swap.
- `Performance`: percentiles, the fair split of requests, and every interleaving of the observers.
- `LiveCoverage` and `LiveFeed`: the live fraction of a window, and the demo's event feed.
- `EnvFile`: the serve env file, and the two readers of the secret that setup writes.

Code that changes things step by step in the repository is a class or a method with loops here,
proved against a specification; expressions and recursion are functions and lemmas.

## Assumptions

Time is a natural or integer count of clock units, and a digest is a function; only the two lemmas
that say so take it to be free of collisions. In `ConstantFold` Python's `%`, `.format`, decoding and
`str` are partial functions of the interpreter, of which `Lawful` states the few facts used. In
`GatewayIdentity` a pair of pid and start ticks names one process, and nobody removes the pidfile by
hand. In `ArchiveStaging` others may put objects at absent names between the passes and between the look
and the rename; in `Disposition` they may add objects and change rows and artifacts, but neither replace
an archived object nor write the trail. In `GuardedRun` the clock advances with every wait and never
reads zero, the value the dictionary uses for "not seen". In `LiveFeed` a live run meets its deadline at
some cycle.

## Where the code does less than its text suggests

Each of these is proved of an input that shows it, beside the exact condition.

- The gateway's scope walk lets a step inside a branch or a loop refer to that branch or loop, which
  the executor has not recorded yet; the procedure exhibited is admitted and no run of it completes
  (`ProductionAdmission.EnclosingContainerAdmitted`; exactly when: `AdmittedResolvesExactly`).
- The static check lets a reference name a step that yields no operation result, which the executor
  refuses (`ScopeSoundness.NonOperationReferenceIsClean`; `UnresolvedExactly`). In every world a run
  that reaches such a step ends there (`FaultyStepEnds`).
- The budget check compares the bound plus the overhead with `max_body_ms` using `<=`, while the
  executor's deadline checks fire on equality: a procedure within its budget can still time out
  (`BudgetMayStillTimeOut`); the exact condition is a strict one on the latest start of any step
  (`AdmittedMeetsDeadlineExactly`).
- The folder's 4096-character limit is not applied to a constant or to `str(...)`
  (`ConstantFold.StrCallIsUnchecked`; `OverlongExactly`), and a tuple assignment or a nested binding
  of `chr` or `str` is not listed as shadowing (`UnpackingIsUnlisted`; `FoldFaithfulExactly`). Site
  containment compares each coordinate on its own (`CoversIsSpanExactly`).
- The token search expects `[0]` to hold the SEQUENCE directly: a token with the encapsulation of
  section 5.2 of RFC 5652, an OCTET STRING between them, is not found
  (`TimestampToken.EncapsulatedTokenIsNotFound`). It also reads past an empty `[0]`, so that its answer
  lies outside the wrapper (`EmptyWrapperIsReadPast`; `AnswersAreHeld`).
- A live gateway whose ticks could not be read when it wrote its pidfile is judged not ours once they
  can be read (`GatewayIdentity.UnreadableTicksMislead`; `GatewayJudgedOursExactly`). A hold body left
  by a predecessor can vouch for an unrelated process (`StaleBodyVouches`; `HoldVouchesExactly`). A
  stopping gateway, or a stop command that judged the predecessor dead, can remove a successor's
  pidfile (`SuccessorLosesItsPidfile`, `CommandRemovesSuccessors`; `KeepsPidfileExactly`).
- `backup` does not check the store's integrity and `restore` does, so a corrupt store is backed up and
  its backup refused (`BackupRestore.CorruptBackupIsRefused`; `BackupRestoresExactly`).
- Staging never replaces an object that stood when it looked, but one that appears at an absent name
  between the look and the rename is replaced (`ArchiveStaging.Overtaken`; exactly when:
  `Destination.Stage`).
- A quoted secret in the credential file is read without its quotes by the loader and with them by
  the command line (`EnvFile.QuotedSecretIsReadDifferently`; `LoaderReadsSecretExactly`,
  `ReadSecretExactly`).

## Model

| member | source | states |
|---|---|---|
| Procedures.RefsInDocumentOrder | scripts/architecture/check_execution.py:84-93 | the references collected from a value are exactly those found by following indices through lists and dicts to a `$stg_ref`, one per occurrence, in document order |
| Procedures.RefsExactly | scripts/architecture/check_execution.py:84-93 | a name is collected if and only if such a path to a reference of it exists |
| Procedures.StepRefsExactly | scripts/architecture/check_execution.py:113-115 | a step reads a name if and only if a reference to it stands somewhere in its invoke input or its written value |
| StaticCheck.ProcChecker.CheckOwn | scripts/architecture/check_execution.py:106-125 | before its nested blocks a step adds exactly its duplicate, role, reference, sample and predicate errors, in that order, and its identifier |
| StaticCheck.ProcChecker.Block | scripts/architecture/check_execution.py:103-135 | one walk of a block returns its worst-case bound, appends exactly its errors in document order and adds every identifier below it; names bound inside do not escape |
| StaticCheck.CheckProcedure | scripts/architecture/check_execution.py:96-140 | the whole check returns exactly the specified errors, each counted by `ReportCount.ReportCounted`, and the bound |
| StaticCheck.RefErrorsExact | scripts/architecture/check_execution.py:113-115 | no reference error exactly when every referenced step is visible, and no other kind of error |
| StaticCheck.ScopeErrorsExact | scripts/architecture/check_execution.py:103-135 | the walk reports a scope error exactly when the tree breaks the lexical rule somewhere: visible references, visible invoke sources, visible sample predicates |
| StaticCheck.DuplicatesExact | scripts/architecture/check_execution.py:107-109 | the duplicate error appears exactly when two steps of the tree, nested ones included, share an identifier |
| StaticCheck.ReportExact | scripts/architecture/check_execution.py:96-140 | scope, duplicate and body-bound errors of a report each appear exactly when the procedure has the fault, references taken by their paths in inputs and written values |
| ReportCount.RefErrorsCounted | scripts/architecture/check_execution.py:113-115 | one reference error for each reference whose name is not visible, and nothing else |
| ReportCount.ReportCounted | scripts/architecture/check_execution.py:96-140 | each of the eight errors stands in a report exactly as often as the tree has its fault: once for a repeated role or an exceeded bound, steps less distinct identifiers for duplicates, and per step for roles, references, sources, samples and bounds |
| Executor.LeafExactly | src/benchweave/control/executor.py:1209-1381 | after its lookups a leaf ends, spends and waits exactly by its step: an operation is refused at the deadline as it is dispatched, a delay never passes the deadline, only a failed assertion or the world ends the body |
| ScopeSoundness.LookAllExact | src/benchweave/control/executor.py:410-446 | lookups get through exactly when every name is bound to a result of the kind its reader needs |
| ScopeSoundness.StepLooksExact | src/benchweave/control/executor.py:966-991 | where the scope chain agrees with the checker's visible names, a step gets past its lookups exactly when the lexical rule and the operation rule hold of it |
| ScopeSoundness.BlockResolves | src/benchweave/control/executor.py:834-852 | a resolvable block never ends unresolved in any world, through any nesting, and a quiet world carries it to its end |
| ScopeSoundness.BlockFaults | src/benchweave/control/executor.py:834-852 | an unresolvable block has a world that steers into the fault and ends unresolved |
| ScopeSoundness.UnresolvedExactly | scripts/architecture/check_execution.py:96-140 | no run under any world ends on an unresolved name if and only if the check reports no scope error and every reference names an operation |
| ScopeSoundness.FaultyStepEnds | src/benchweave/control/executor.py:966-991 | in every world a run that reaches a step breaking the lexical or the operation rule ends there, unresolved |
| ScopeSoundness.NeverCompletes | src/benchweave/control/executor.py:834-852 | if such a step lies on every way through a block, no run of it completes |
| ScopeSoundness.NonOperationReferenceIsClean | scripts/architecture/check_execution.py:113-115 | a procedure whose reference names a delay draws no error at all, no run of it completes and some run ends unresolved |
| ScopeSoundness.BlockFound | src/benchweave/control/executor.py:834-852 | in a lexically clean block every name looked up is bound, sources by invokes and predicates by samples |
| ScopeSoundness.BlockPlaced | src/benchweave/control/executor.py:834-852 | whatever a block reads was recorded earlier in the run by a step that precedes its reader in the same branch and iteration |
| ScopeSoundness.ScopeSoundness | scripts/architecture/check_execution.py:84-135 | in every run of every procedure each result read was recorded earlier by a lexically preceding step, never one inside an earlier loop iteration or a closed branch; with no scope error nothing is missing and kinds are right |
| BoundExactness.BoundSound | src/benchweave/control/semantics.py:45-71 | every run whose leaves keep their own allowances (a timeout, a capture's plus 5000 ms, a delay's length) does at most the bound's work, and its clock is work plus host time |
| BoundExactness.BoundAttained | scripts/architecture/check_execution.py:126-135 | some timely run of a resolvable procedure does exactly the bound's work and completes |
| BoundExactness.LatestStartWithinBound | scripts/architecture/check_execution.py:103-135 | no step of the slowest run starts later than the bound |
| BoundExactness.BlockInTime | src/benchweave/control/executor.py:834-852 | a timely run with at most the given host time never meets the deadline check when the latest start plus that time is before the deadline |
| BoundExactness.BlockSpends | src/benchweave/control/executor.py:1383-1455 | off the chosen path the slowest world spends exactly the bound, taking the dearer branch and every iteration |
| BoundExactness.BlockRaces | src/benchweave/control/executor.py:834-852 | a world leading to the last-starting step is cut off by any deadline not after its start |
| BoundExactness.DeadlineExactly | src/benchweave/control/executor.py:834-1272 | a resolvable body never times out, at the check before a step or at the one as an operation is dispatched, under any timely world if and only if its latest start plus the host time is strictly before the deadline; a delay is clamped to what remains |
| ProductionAdmission.BudgetsAgree | scripts/architecture/check_execution.py:299-304 | given the transition's parts fit, the gateway's two budget refusals are exactly the document checker's budget failures |
| ProductionAdmission.AdmittedFits | scripts/architecture/check_execution.py:391-397 | within its budgets, every timely run with host time inside the commissioned overhead ends within max_body_ms, and the safe transition after it ends within every domain's max_energised_ms |
| ProductionAdmission.BudgetMayStillTimeOut | src/benchweave/control/semantics.py:365-373 | some admitted procedure has a timely run that times out |
| ProductionAdmission.AdmittedMeetsDeadlineExactly | src/benchweave/control/executor.py:834-852 | a resolvable procedure never times out with the commissioned overhead if and only if latest start plus overhead is below max_body_ms |
| ProductionAdmission.WalkExact | src/benchweave/control/semantics.py:74-97 | the unrolled walk accepts exactly when one recursion over the tree does |
| ProductionAdmission.AdmissionExactly | src/benchweave/control/semantics.py:414-441 | duplicate identifiers, scope, body budget and energised budget are each refused if and only if they are the first of the four at fault |
| ProductionAdmission.IterationsVisitTheSame | src/benchweave/control/semantics.py:95-97 | walking a loop body again visits nothing new |
| ProductionAdmission.ScopeVersusWalk | src/benchweave/control/semantics.py:183-236 | on fresh identifiers, lexical cleanness is the gateway's walk plus: no step reads a container it sits in, samples read invokes, predicates read samples |
| ProductionAdmission.CheckersAgreeExactly | src/benchweave/control/semantics.py:74-97 | on distinct identifiers the document checker's scope verdict is the gateway's plus that discipline |
| ProductionAdmission.AdmittedResolvesExactly | src/benchweave/control/semantics.py:414-441 | an admitted procedure never ends on an unresolved name if and only if it keeps that discipline and references operations only |
| ProductionAdmission.EnclosingContainerAdmitted | src/benchweave/control/semantics.py:74-97 | the gateway admits a reference to the enclosing loop in a procedure that no run completes |
| DependencyClosure.Search.Visit | scripts/architecture/check_closure.py:38-49 | a visit keeps finished nodes reachable and closed, keeps every report true, and settles its node: open means a cycle reported, absent means missing reported, else visited |
| DependencyClosure.FinishNode | scripts/architecture/check_closure.py:45-49 | finishing a node whose dependencies are settled keeps the invariants and, while no cycle is reported, a topological order |
| DependencyClosure.OrderedIsAcyclic | scripts/architecture/check_closure.py:34-53 | a topological order of all present reachable nodes leaves no reachable cycle |
| DependencyClosure.SearchComplete | scripts/architecture/check_closure.py:34-53 | with no node open, the invariants say exactly what was found |
| DependencyClosure.Closure | scripts/architecture/check_closure.py:34-53 | for every finite graph and root list the search terminates; visited is exactly the present reachable nodes; a cycle and a missing node are reported exactly when one is reachable |
| DependencyClosure.ResourceCheck.Visit | scripts/architecture/check_execution.py:242-250 | the search without a memory appends exactly the reports of its exploration |
| DependencyClosure.ExploreSound | scripts/architecture/check_execution.py:242-250 | each report of an exploration is true of what it can reach |
| DependencyClosure.ExploreComplete | scripts/architecture/check_execution.py:242-250 | if a visit reports no cycle, no walk from its node repeats a node or meets an open one |
| DependencyClosure.ExploreFollows | scripts/architecture/check_execution.py:242-250 | a walk without repetition to an absent node is followed to its end and reported |
| DependencyClosure.SimpleWalk | scripts/architecture/check_execution.py:242-250 | every walk can be cut to one without repetition |
| DependencyClosure.ExhaustiveReportsTheSame | scripts/architecture/check_execution.py:242-250 | the search without a memory reports a cycle, and a missing node, exactly when the closure's notion of reachability has one |
| DependencyClosure.CheckResources | scripts/architecture/check_execution.py:242-255 | started at every resource, a cycle is reported exactly if some resource leads back to itself and an unknown one exactly if one is depended on |
| DependencyClosure.Exact | scripts/architecture/check_closure.py:67-74 | pins are exact if and only if no two of them name one package with different version or digest |
| ConstantFold.FoldSound | scripts/standards/count_version_literals.py:289-400 | whenever the folder returns a value, evaluation gives the same value, under any lawful interpreter whose unlisted chr and str are the builtins |
| FoldCompleteness.FoldAnswersExactly | scripts/standards/count_version_literals.py:276-400 | the folder answers if and only if the expression nests at most 24 deep and is on the allowlist, stated by evaluation alone: plain constants, plain f-strings, `+` on short strings, `*` of text and number, `%` where the engine answers, join over a display of short strings, format without specification, decode without argument, unlisted chr and str, displays; every checked string at most 4096 characters |
| FoldCompleteness.SpecExactly | scripts/standards/count_version_literals.py:360-367 | the specification test holds exactly when a `!` or a `:` comes after some `{` before any `}` |
| FoldCompleteness.RepeatedReads | scripts/standards/count_version_literals.py:327-333 | a repeated string has the length its count asks, none for a negative one, and repeats with its own period |
| FoldCompleteness.JoinedAcross | scripts/standards/count_version_literals.py:350-359 | joining puts the separator between neighbours and nowhere else |
| ConstantFold.FoldShallower | scripts/standards/count_version_literals.py:289-400 | a fold that succeeds gives the same value from any smaller starting depth |
| ConstantFold.CheckedStringsAreShort | scripts/standards/count_version_literals.py:269-276 | every string folded from anything but a constant or str(...) has at most 4096 characters |
| ConstantFold.StrCallIsUnchecked | scripts/standards/count_version_literals.py:279-286 | str of a constant folds at any length |
| ConstantFold.OverlongExactly | scripts/standards/count_version_literals.py:269-286 | a folded string exceeds the limit if and only if it is an overlong constant, or a number with an overlong text, inside any number of str(...) calls |
| ConstantFold.ShadowedBuiltinNames | scripts/standards/count_version_literals.py:245-266 | the listed names are exactly those some top-level statement binds directly |
| ConstantFold.ShadowsExactly | scripts/standards/count_version_literals.py:245-266 | a statement is listed for a name if and only if the name is chr or str and the statement binds it directly: a definition, a plain target, an alias or the part of an imported name before its first dot |
| ConstantFold.BindsExactly | scripts/standards/count_version_literals.py:245-266 | what a statement binds when it runs, tuple targets and nested blocks included |
| ConstantFold.UnlistedIsUnfaithful | scripts/standards/count_version_literals.py:245-266 | a builtin the module rebinds without being listed makes some fold differ from evaluation |
| ConstantFold.FoldFaithfulExactly | scripts/standards/count_version_literals.py:245-266 | folding is faithful under every lawful interpreter of a module if and only if every builtin it binds is listed |
| ConstantFold.UnpackingIsUnlisted | scripts/standards/count_version_literals.py:245-266 | a tuple assignment binds chr without being listed |
| ConstantFold.FirstOfEachBox | scripts/standards/count_version_literals.py:442-444 | the first row of every box, in order, each box once, no box lost |
| ConstantFold.FirstRowsExactly | scripts/standards/count_version_literals.py:442-444 | a row is kept if and only if it is the first of its box |
| ConstantFold.KeepMaximal | scripts/standards/count_version_literals.py:445-456 | the kept rows are exactly those whose box no other box covers, in order |
| ConstantFold.EveryFoldedBoxIsKept | scripts/standards/count_version_literals.py:442-456 | every folded box lies within a kept one |
| ConstantFold.CoversIsSpanExactly | scripts/standards/count_version_literals.py:448-455 | the coordinate comparison is span containment exactly when the columns nest too, and there are spans for which it differs |
| TimestampToken.DerTlv | scripts/registry/sign_release.py:284-300 | a decoded header leaves its content in bounds |
| TokenFields.DerTlvExactly | scripts/registry/sign_release.py:284-300 | a header is decoded if and only if a tag, a length in one byte or in one to four more, most significant first, and that much content stand there |
| TimestampToken.TlvRoundTrip | scripts/registry/sign_release.py:284-300 | decoding an encoded element anywhere in a buffer returns its tag, its content and its end, for every content shorter than 2^32 bytes |
| TimestampToken.IterTlv | scripts/registry/sign_release.py:303-308 | yields the sibling headers up to the end of the range or the first malformed one |
| TimestampToken.SiblingsOfForest | scripts/registry/sign_release.py:303-308 | over any concatenation of encoded elements, whatever their tags and contents, exactly those elements in order |
| TimestampToken.FindIn | scripts/registry/sign_release.py:319-343 | the looping search of a range is the recursive one and terminates on every byte string, although children may overrun their parent |
| TimestampToken.FindTstInfo | scripts/registry/sign_release.py:311-345 | the search of a whole token |
| TimestampToken.FoundThroughHeaders | scripts/registry/sign_release.py:311-345 | an answer is reached from the start by a chain of headers, each past an element or into a constructed one, ending at the identifier |
| TimestampToken.WrappedIsNext | scripts/registry/sign_release.py:330-337 | after an identifier the answer is the SEQUENCE that the header after a [0] header starts, wherever that wrapper ends, and nothing otherwise |
| TimestampToken.SearchesTheTree | scripts/registry/sign_release.py:319-343 | the byte-level search of any encoded forest of well-formed elements is the search of the tree, whatever bytes surround it |
| TimestampToken.TokenSearch | scripts/registry/sign_release.py:311-345 | the same for every whole token |
| TimestampToken.SearchGivesFirst | scripts/registry/sign_release.py:319-343 | the search gives the first answer, in document order, of an identifier that no other one precedes among its siblings or those around it, and nothing if there is none |
| TimestampToken.AnswersAreHeld | scripts/registry/sign_release.py:330-337 | every answer inside its wrapper is held by the tree, and all are inside if and only if no empty [0] is read past |
| TimestampToken.AnswerIsHeld | scripts/registry/sign_release.py:311-345 | what a whole token answers is a SEQUENCE wrapped after an identifier, if nothing is read past an empty [0] |
| TimestampToken.FirstIdentifierFound | scripts/registry/sign_release.py:311-345 | if the first identifier in document order wraps a SEQUENCE that is the answer, however often the identifier comes again |
| TimestampToken.EmptyWrapperIsReadPast | scripts/registry/sign_release.py:330-337 | an empty [0] after the identifier makes a SEQUENCE beside it the answer |
| TimestampToken.OctetStringIsNotOpened | scripts/registry/sign_release.py:330-337 | no tree in which every [0] after an identifier starts with an OCTET STRING yields an answer |
| TimestampToken.EncapsulatedTokenIsNotFound | scripts/registry/sign_release.py:348-359 | every such token is refused as not found |
| TimestampToken.TakeOctets | scripts/registry/sign_release.py:364-369 | the imprint is the last OCTET STRING of the SEQUENCE |
| TimestampToken.ParseTimestampToken | scripts/registry/sign_release.py:348-378 | the parser returns the specified outcome, which `TokenFields.BodyExactly` and `TokenFields.ParseExactly` pin |
| TokenFields.BodyExactly | scripts/registry/sign_release.py:360-378 | for every byte string: malformed if and only if it, or a SEQUENCE opened before one holds an OCTET STRING, does not split, or its first time is not ASCII; else a token with exactly the last OCTET STRING of the first SEQUENCE that holds one as imprint and the first time as time; incomplete if and only if either is missing |
| TokenFields.ParseExactly | scripts/registry/sign_release.py:348-378 | not found if and only if the search finds no TSTInfo, else the outcome of that TSTInfo |
| TokenFields.FieldsStand | scripts/registry/sign_release.py:360-374 | the fields of the bytes of a TSTInfo are those of its tree, item by item |
| TokenFields.TokenRoundTrip | scripts/registry/sign_release.py:348-378 | parsing any encoded token whose first content-type identifier wraps a TSTInfo: token, malformed and incomplete each if and only if the tree says so, with the imprint and the time of the tree in their places |
| LogTail.SplitConcat | src/benchweave/cli/diagnose.py:526-528 | cutting a file anywhere splits only the row at the cut |
| LogTail.LaterIsSuffix | src/benchweave/cli/diagnose.py:520-530 | rows read from later in the file are a suffix of rows read from earlier |
| LogTail.WindowSettles | src/benchweave/cli/diagnose.py:519-544 | a window with enough rows already holds the whole file's last rows |
| LogTail.TailLines | src/benchweave/cli/diagnose.py:499-544 | for every file and positive count it terminates, answers if and only if the file fits the first window or the capped window has enough rows, and an answer is exactly the whole file's last rows |
| LogTail.SplitIsJoinInverse | src/benchweave/cli/diagnose.py:526 | splitting loses nothing and leaves no newline in a row |
| LogTail.RowsReadBack | src/benchweave/cli/diagnose.py:520-530 | rows written with either line ending, and an unended last one, are exactly the rows read |
| ArchiveStaging.Destination.VerifyPreexisting | src/benchweave/cli/dispose.py:295-320 | an object found under a needed address passes exactly if it is a file that hashes to it; a link and a mismatch are refused as such |
| ArchiveStaging.Destination.PlaceObject | src/benchweave/cli/dispose.py:260-292 | what landed stands under the name, whatever stood there by then, and is accepted exactly if it reads back to its address |
| ArchiveStaging.AtMostExactly | src/benchweave/cli/dispose.py:383-391 | the order the artifacts are sorted in: a prefix first, else by the first character that differs |
| ArchiveStaging.Needed | src/benchweave/cli/dispose.py:383-391 | exactly the artifacts the plan names, each once, in ascending order of content address |
| ArchiveStaging.CollectIds | src/benchweave/cli/dispose.py:360-391 | collecting in plan order and sorting yields those artifacts, or the first row that has none |
| ArchiveStaging.Destination.VerifyAll | src/benchweave/cli/dispose.py:392-402 | the first pass passes exactly if everything needed and standing is intact; it places nothing, its facts are exactly those objects, and a refusal names the first that is not |
| ArchiveStaging.Destination.SettleOne | src/benchweave/cli/dispose.py:409-441 | one object of the second pass is verified if it stands, placed and verified if absent, refused if it vanished, with the reason that applies; what others put there meanwhile is replaced |
| ArchiveStaging.Destination.PlaceAll | src/benchweave/cli/dispose.py:408-452 | the second pass succeeds exactly when power holds and every object will verify, loses power exactly when it strikes after objects that verify, and is otherwise refused at the first that will not; its figures are the placed, the deduplicated and the bytes of the placed; everything before the stop is verified and everything after it untouched |
| ArchiveStaging.Destination.Stage | src/benchweave/cli/dispose.py:323-452 | staging succeeds if and only if every row has an artifact, power holds and every needed object will verify; facts are exactly the distinct artifacts, placed plus deduplicated their number, copied the sum over the placed; an unsound start changes nothing and names the first fault; nothing that stood when staging looked changes, and others' objects are replaced exactly at the absent names they took before the rename |
| ArchiveStaging.Overtaken | src/benchweave/cli/dispose.py:275-281 | an object put at an absent name after the look is replaced by a staging that succeeds |
| ArchiveStaging.RestagingSucceeds | src/benchweave/cli/dispose.py:323-452 | staging again over what a staging left succeeds short of a power loss, whatever the store, the medium and other writers do |
| ArchiveStaging.RestagingPlacesNone | src/benchweave/cli/dispose.py:323-452 | it then places and copies nothing and reports the same facts |
| ArchiveStaging.StageTwice | src/benchweave/cli/dispose.py:323-452 | after a first staging that succeeds the second succeeds exactly if power holds, deduplicates every object, reports the same facts and leaves what stood there |
| Disposition.BuildStaged | src/benchweave/cli/dispose.py:849-859 | the rows handed to the transaction carry the binding read at entry and the length standing at the destination |
| Disposition.WorkedRows | src/benchweave/state/dispositions.py:339-483 | the rows a worklist removes are exactly those to delete and those staged |
| Disposition.ExecuteExactly | src/benchweave/state/dispositions.py:339-483 | the worklist goes through exactly if each named row is there once and each staged one still bound as staged; it removes exactly those rows and records exactly the staged ones in order |
| Disposition.CollectExactly | src/benchweave/state/dispositions.py:224-277 | the collection goes through exactly if every dropped, stored and unreferenced artifact hashes to its address, and removes exactly those |
| Disposition.CommitExactly | src/benchweave/state/dispositions.py:281-530 | both together, as one transaction that does all of it or nothing |
| Disposition.CommitSparesOthers | src/benchweave/state/dispositions.py:224-277 | a row not named keeps its binding, and an artifact goes only if a row bound to it went and nothing that stays refers to it |
| Disposition.CommitIsSound | src/benchweave/state/dispositions.py:281-530 | a commit appends exactly one trail row per staged row, each naming a verified object, and removes those rows |
| Disposition.Dispose | src/benchweave/cli/dispose.py:836-889 | a run commits if and only if staging succeeds, power holds and the transaction it is handed goes through; the store is then exactly what that transaction makes it and otherwise as it was, and the trail gained only sound rows |
| Disposition.StepKeepsTrailSound | src/benchweave/cli/dispose.py:836-889 | one run, or anything others may do, keeps every trail row sound |
| Disposition.ArchiveBeforeDelete | src/benchweave/cli/dispose.py:836-889 | through any history of runs stopped anywhere, every committed archived row names a present object that hashes to its address |
| Disposition.ListedExactly | src/benchweave/cli/dispose.py:532-589 | the listed rows are exactly the trail rows with a wanted verdict |
| Disposition.VerifyArchive | src/benchweave/cli/dispose.py:523-610 | a row drifts as absent, digest mismatch or length mismatch, or is skipped as unbound or without destination (recorded, else fallback), exactly when the trail and the destinations say so; `verified` counts exactly the rest; the first symbolic link refuses |
| Disposition.JudgeExactly | src/benchweave/cli/dispose.py:531-592 | each of the seven verdicts on a row is given if and only if the row deserves it |
| Disposition.ListedJoined | src/benchweave/cli/dispose.py:524-592 | the listing of two trails one after the other is their listings one after the other |
| Disposition.SoundExactlyVerified | src/benchweave/cli/dispose.py:532-589 | a row is sound exactly when it is fully recorded and the audit verifies it |
| Disposition.SoundTrailAuditsClean | src/benchweave/cli/dispose.py:499-615 | a sound trail audits clean |
| Disposition.ArchivedContentSurvives | src/benchweave/cli/dispose.py:260-292 | with a collision-free digest a sound row's object is the very content that was stored |
| GatewayIdentity.VerdictExactly | src/benchweave/supervision.py:430-513 | absent, gone, not ours, unknown, desync and ours are each given if and only if the record, the hold, the probe and the ticks say so |
| GatewayIdentity.HistoryKeepsConsistent | src/benchweave/supervision.py:152-174 | over every history of starts, exits, locks, bodies and pidfiles the invariants hold and a pair of pid and ticks keeps naming one instance |
| GatewayIdentity.OursIsTheWriter | src/benchweave/supervision.py:414-513 | a tick-based "ours" is given only for the live process that wrote the pidfile, however much happens between the reads, and a gateway-labelled hold's readable pid agrees |
| GatewayIdentity.StaleIsStale | src/benchweave/supervision.py:414-513 | "gone" means nothing runs under the pid and "not ours" that the writer does not |
| GatewayIdentity.GatewayJudgedOursExactly | src/benchweave/supervision.py:152-174 | a live gateway with its pidfile and hold intact is judged ours if and only if its ticks are unreadable now or were readable when the pidfile was written |
| GatewayIdentity.UnreadableTicksMislead | src/benchweave/supervision.py:460-469 | a reachable history in which a gateway in good standing is judged not ours |
| GatewayIdentity.HoldVouchesExactly | src/benchweave/supervision.py:428-513 | with pidfile, body, lock and process read at different moments and ticks unreadable, "ours" means the probe said alive, the lock was held and the body was a gateway's with the record's pid; it rests on the gateway that last wrote the body, which is the live process named if and only if nothing was started under its pid since, and has held the lock ever since if and only if nobody took it |
| GatewayIdentity.StaleBodyVouches | src/benchweave/state/hold.py:164-194 | between taking the lock and rewriting the body an unrelated process can be judged ours |
| GatewayIdentity.KeepsPidfileExactly | src/benchweave/supervision.py:192-199 | a gateway that runs, holds the lock and has its pidfile in place keeps it through everything others may do if and only if no stopped gateway has yet to remove it and no stop command holds a dead verdict or another pid's record |
| GatewayIdentity.SuccessorLosesItsPidfile | src/benchweave/interfaces/app.py:1220-1224 | a gateway that releases the hold and then removes the pidfile can remove its successor's |
| GatewayIdentity.CommandRemovesSuccessors | src/benchweave/cli/lifecycle.py:236-237 | so can a stop command that judged the predecessor's record dead |
| GuardedRun.Marked.Forward | scripts/assemble_docs_site.py:332-345 | one line keeps the dictionary saying exactly what the lines say: first success, first failure, head seen |
| GuardedRun.CompletesAppend | scripts/assemble_docs_site.py:332-345 | what one more line changes: the in-process marker needs a head line and a later ready line |
| GuardedRun.FailHeld | scripts/assemble_docs_site.py:486-489 | the failure check holds exactly when a failure in the output forwarded at its first read has stood for the grace |
| GuardedRun.OkHeld | scripts/assemble_docs_site.py:490-500 | the success check holds exactly when a success in the output at its first read has stood for the grace and no failure is in the output at its second |
| GuardedRun.Decide | scripts/assemble_docs_site.py:486-504 | a round without an exit comes to what the output forwarded in it makes due: failure before success before timeout |
| GuardedRun.VerdictExactly | scripts/assemble_docs_site.py:473-504 | each ending of a round is given if and only if it is the first that applies: the child's exit, a failure that stood, a success that stood with no failure seen, the timeout |
| GuardedRun.RunMarkerGuarded | scripts/assemble_docs_site.py:428-504 | in every interleaving with a finite timeout the run ends in the first round in which the child's exit, its output so far or the clock makes an ending due, with that ending; the reader has forwarded exactly the output up to the join, and the group is reclaimed after the last wait and before the join |
| GuardedRun.EndingIsDetermined | scripts/assemble_docs_site.py:428-504 | output, exit and timing fix the round and the ending |
| BackupRestore.ManifestMismatches | src/benchweave/cli/atrest.py:373-407 | no problem exactly when the manifest lists the tree in both directions; missing files and digest mismatches are reported exactly |
| BackupRestore.BackupPassesItsGate | src/benchweave/cli/atrest.py:311-367 | what backup makes matches its own manifest and holds the snapshot and the content |
| BackupRestore.Disk.Gate | src/benchweave/cli/atrest.py:471-476 | the gate passes exactly an acceptable archive |
| BackupRestore.Disk.Prepare | src/benchweave/cli/atrest.py:434-476 | up to the gate nothing but the staging directory changes, and going on means the whole restored tree is staged |
| BackupRestore.Disk.Swap | src/benchweave/cli/atrest.py:477-491 | the swap ends at the first rename that goes wrong, leaves exactly what that leaves, and at every moment the old tree is in place or aside and the data directory holds nothing else but the whole restored tree |
| BackupRestore.Disk.Restore | src/benchweave/cli/atrest.py:410-491 | outcome and remaining directories are exactly those of the first point that goes wrong; at every recorded moment, the last included, the old tree stands in one piece |
| BackupRestore.EndingMeans | src/benchweave/cli/atrest.py:410-491 | success if and only if the archive is acceptable and nothing goes wrong; a failure or a power loss only where one struck; every failure but a failed put-back leaves the directories as before; the old tree always stands |
| BackupRestore.BackupRestoresExactly | src/benchweave/cli/atrest.py:311-367 | a backup is accepted, and what restore leaves verifies clean, if and only if the snapshot passes the integrity check; store and content are the same |
| BackupRestore.CorruptBackupIsRefused | src/benchweave/cli/atrest.py:311-367 | a backup that matches its manifest and is refused though nothing goes wrong |
| BackupRestore.LiveStateIsTolerated | src/benchweave/cli/atrest.py:154-161 | live state beside a verified tree keeps it verified |
| BackupRestore.GateAcceptsOnlyTheBackup | src/benchweave/cli/atrest.py:373-407 | with a collision-free digest the only staged tree a backup's manifest accepts is the backup |
| BackupRestore.NamesExactly | src/benchweave/cli/atrest.py:154-161 | exactly the files under content/ are content, and exactly five named files and those under registry/ are live state |
| LiveCoverage.Driver.Accept | src/benchweave/cli/evidence.py:752-757 | opening a run keeps the intervals ordered and disjoint and changes no earlier tick |
| LiveCoverage.Driver.Finish | src/benchweave/cli/evidence.py:758-763 | closing a run appends its interval, keeps the order and changes no earlier tick |
| LiveCoverage.ClippedSumIsLiveTime | src/benchweave/cli/evidence.py:694-711 | over ordered disjoint intervals the clipped sum is the number of live ticks in the window |
| LiveCoverage.Driver.Coverage | src/benchweave/cli/evidence.py:694-711 | in every reachable state the fraction is exactly live ticks over window length, so the clamp never acts |
| LiveFeed.LiveDrive.Poll | src/benchweave/cli/demo.py:326-355 | a cycle returns its new events or raises; what has been seen is exactly the pages read so far, the one at the deadline included |
| LiveFeed.LiveFeed.Turn | src/benchweave/cli/demo.py:442-457 | one turn leaves the inner loop as its cycle went: one error record if it raised, the end if terminal without events or closed, otherwise on, the page pending |
| LiveFeed.LiveFeed.Next | src/benchweave/cli/demo.py:438-458 | banner first, then pending events in order; the end only when nothing is pending or the view was closed |
| LiveFeed.SeenIsReturned | src/benchweave/cli/demo.py:326-355 | until a cycle raises, the pages read are the pages returned |
| LiveFeed.ShapeDetermines | src/benchweave/cli/demo.py:438-458 | a feed of the kept shape is one banner, its events and at most one error record |
| LiveFeed.EndIsDetermined | src/benchweave/cli/demo.py:438-458 | cycles and close fix the cycle after which a feed ends |
| LiveFeed.Consume | src/benchweave/cli/demo.py:405-458 | consumed to its end, whenever the operator closes the view, the feed ends at the first cycle that is terminal, raises or meets a close, or after the last one polled before a close between records; the records are one banner, the events of every returned cycle in order and once, less only the page a close interrupts during its wait, then one error record exactly if the last cycle raised; events_observed is the number of events returned |
| Performance.AtRankIsPolygon | src/benchweave/performance.py:97-107 | between neighbouring ranks the value is the straight line through the two samples |
| Performance.PercentileIsQuantile | src/benchweave/performance.py:97-107 | on every sorted sample the percentile lies between minimum and maximum and never falls as q grows |
| Performance.PercentileAtSample | src/benchweave/performance.py:97-107 | at a sample's own rank it is that sample, so 0 is the minimum and 1 the maximum |
| Performance.SummaryOrdered | src/benchweave/performance.py:110-131 | a summary exists exactly for a non-empty sample, with p50 <= p95 <= max, max the largest sample and every sample counted |
| Performance.SummaryExactly | src/benchweave/performance.py:110-131 | for any ascending arrangement of the samples, p50 and p95 are the values of its polygon at ranks 1/2 and 19/20 of the way, max its last sample |
| Performance.SummaryOrderIndependent | src/benchweave/performance.py:110-131 | collection order does not matter |
| Performance.SharesAreFair | src/benchweave/performance.py:158-159 | the shares add up to the requests, differ by at most one and do not increase |
| Performance.EveryInterleavingReports | src/benchweave/performance.py:137-189 | every error-free interleaving collects exactly the requested samples, each duration as often as calls take it; one failure withholds the summary |
| Performance.InterleavingIsIrrelevant | src/benchweave/performance.py:137-189 | two error-free interleavings over the same call times report the same summary |
| EnvFile.SplitInvertsJoin | src/benchweave/cli/env_file.py:61-64 | splitting inverts joining under each of the three newline forms |
| EnvFile.KeyedLine | src/benchweave/cli/env_file.py:144-166 | a line starting with a settable key is split at its first equals sign and loses only its trailing white space |
| EnvFile.LineYieldsUsable | src/benchweave/cli/env_file.py:144-176 | whatever a line yields has a settable key and a value that is not blank and holds no control character |
| EnvFile.StripTrims | src/benchweave/cli/env_file.py:144-146 | a line is what is left between the white space at both ends |
| EnvFile.LinePassedExactly | src/benchweave/cli/env_file.py:144-150 | a line is passed over if and only if it is blank or a comment, and refused for want of an equals sign if and only if it is neither and has none |
| EnvFile.AssignmentExactly | src/benchweave/cli/env_file.py:144-176 | of a line cut at its first equals sign, each refusal is given if and only if it is the first that applies, and otherwise the key with the value less one layer of quotes |
| EnvFile.ParseEnvFile | src/benchweave/cli/env_file.py:110-186 | all entries in order with their line numbers, exactly if no line is refused and no key comes twice; else the first offending line with its problem, for a duplicate the line that had the key first |
| EnvFile.RoundTripExactly | src/benchweave/cli/env_file.py:78-88 | the lines KEY="value" read back as exactly the listed pairs if and only if keys are distinct and settable and values are neither blank nor hold control characters |
| EnvFile.ReadSecretExactly | src/benchweave/cli/atrest.py:295-305 | the command line reads back the written secret if and only if it holds no line boundary |
| EnvFile.SplitLinesAt | src/benchweave/cli/atrest.py:295-305 | splitting breaks at each line boundary, a carriage return with its newline counting as one, and nowhere else |
| EnvFile.FirstSecretExactly | src/benchweave/cli/atrest.py:302-304 | the first line that starts with the key and an equals sign gives its rest |
| EnvFile.LoaderReadsSecretExactly | src/benchweave/cli/atrest.py:164-165 | the loader reads back the written secret if and only if it is non-empty, starts with neither space nor quote, does not end in white space and holds no control character |
| EnvFile.GeneratedSecretIsReadAlike | src/benchweave/cli/atrest.py:268-292 | both readers return every token setup can generate |
| EnvFile.QuotedSecretIsReadDifferently | src/benchweave/cli/atrest.py:295-305 | a quoted secret is read without its quotes by one and with them by the other |
| EnvFile.AppliedExactly | src/benchweave/cli/env_file.py:189-198 | keys already set keep their values; any other key ends up set if and only if it is listed, to the value of its first entry |
| EnvFile.Environment.Apply | src/benchweave/cli/env_file.py:189-198 | for any list, repeated keys included, the environment ends so and the names set are returned in order |
| EnvFile.Environment.Load | src/benchweave/cli/env_file.py:201-220 | a refused file leaves the environment untouched; an accepted one is applied, and sets only settable keys |
| EnvFile.ApplyingIsIdempotent | src/benchweave/cli/env_file.py:189-198 | applying the same entries to what applying left changes nothing and sets no name |
| EnvFile.ApplyTwice | src/benchweave/cli/env_file.py:189-198 | applying twice leaves what applying once does |

## Left out

- ScopeSoundness.UnresolvedExactly: asks for repeat counts of at least one, which the procedure schema guarantees; with a count of zero a faulty body is never entered.
- ProductionAdmission.WalkExact: the same, since a body walked zero times is never checked.
- BoundExactness.DeadlineExactly: stated for resolvable, non-empty bodies; an unresolvable one may stop before its deadline.
- ArchiveStaging.Destination.Stage: temporary files, syncing, the orphan listing and the written archive manifest are not modelled; a rename into place is one atomic step.
- GuardedRun.RunMarkerGuarded: for a finite timeout; with none a child that never exits and never marks makes the loop endless.
- GuardedRun.Marked.Forward: how a line matches the banner patterns is given with the line.
- BackupRestore.Disk.Restore: the archive's path checks and the choice of unused directory names are not modelled, and a name is absent when the rename onto it happens.
- LiveFeed.Consume: a feed of a started drive, closed during a wait or between two records; a close while a poll is under way acts at the wait after it. Cursors and the content of events are not modelled.
- Performance.PercentileIsQuantile: real arithmetic; the rounding to three places and floating point are not modelled.
- EnvFile.ParseEnvFile: file permissions, unreadable files and invalid UTF-8 are refused before the text is parsed and are not modelled.
- BoundExactness.BoundSound: an operation may take its whole allowance; the deadline handed to the device is clamped to the body's, but keeping it is the device's business.
- Python's recursion limit: procedures, expressions, tokens and graphs nested more deeply than it raise in the code and not here.
- The executor's replay ledger, policy dispatch, issue identifiers, paths into results, sample staleness and device protocols: a step either ends the body or does not.
- Function-local and `import *` bindings in the constant folder, and the patterns that decide which folded strings are reported.
- The signature, certificate and hash checks around the timestamp token.
- UTF-8 replacement decoding of log rows, and the other destinations of the logs command.
- The envelopes of the disposition log and the decision artifacts it stores for them; its transaction is one atomic step.
- Signals, stop requests, journals and the Windows and macOS process probes of the supervisor.
- Admission's `$stg_issue` and state-changing-read checks and its commissioning deadline.
- JSON schema validation, commissioning evidence and the fixture-driven check lists of the scripts.
- The REST, MCP and web interfaces, rendering, and the command line itself.
