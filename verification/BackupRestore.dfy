/** Backing up a data directory and restoring it: a digest gate that is total
    in both directions, and a directory swap that can be interrupted. */
module BackupRestore {
  import opened Options

  type Name = string      // a path relative to the directory
  type Bytes = seq<bv8>
  type Digest = Bytes -> string

  const DB_NAME := "state.sqlite"
  const CONTENT_PREFIX := "content/"
  const REGISTRY_PREFIX := "registry/"
  const UNLISTED_OK := {"manifest.json", "benchweave.env", "state.sqlite-wal", "state.sqlite-shm", "state.sqlite.hold"}

  /** `None` when the manifest's `files` entry is not an object. */
  datatype Manifest = Manifest(files: Option<map<Name, string>>)

  /** A directory: its files, the manifest kept apart from the others. */
  datatype Tree = Tree(files: map<Name, Bytes>, manifest: Option<Manifest>)

  predicate HasPrefix(name: Name, prefix: string) {
    prefix <= name
  }

  predicate IsContent(name: Name) {
    HasPrefix(name, CONTENT_PREFIX)
  }

  /** May stand in a verified tree without being listed. */
  predicate IsLiveState(name: Name) {
    name in UNLISTED_OK || HasPrefix(name, REGISTRY_PREFIX)
  }

  // ---- the digest gate --------------------------------------------------------------

  datatype Problem =
    | FilesNotObject | FilesEmpty | StoreNotCovered
    | MissingFile(name: Name) | DigestMismatch(name: Name) | Unlisted(names: set<Name>)

  /** The manifest lists this tree: every listed file is there with its digest,
      every other file is live state, and the store is covered. */
  predicate Matches(digest: Digest, files: map<Name, Bytes>, m: Manifest) {
    && m.files.Some? && m.files.value != map[]
    && (DB_NAME in files ==> DB_NAME in m.files.value)
    && (forall n :: n in m.files.value ==> n in files && digest(files[n]) == m.files.value[n])
    && (forall n :: n in files ==> n in m.files.value || IsLiveState(n))
  }

  /** The problems of the listed files. */
  method ListedProblems(digest: Digest, files: map<Name, Bytes>, listed: map<Name, string>)
    returns (problems: seq<Problem>)
    ensures problems == [] <==> forall n :: n in listed ==> n in files && digest(files[n]) == listed[n]
    ensures forall p :: p in problems ==> p.MissingFile? || p.DigestMismatch?
    ensures forall n :: MissingFile(n) in problems <==> n in listed && n !in files
    ensures forall n :: DigestMismatch(n) in problems <==> n in listed && n in files && digest(files[n]) != listed[n]
  {
    problems := [];
    var todo := listed.Keys;
    while todo != {}
      invariant todo <= listed.Keys
      invariant problems == [] <==>
                  forall n :: n in listed && n !in todo ==> n in files && digest(files[n]) == listed[n]
      invariant forall p :: p in problems ==> p.MissingFile? || p.DigestMismatch?
      invariant forall n :: MissingFile(n) in problems <==> n in listed && n !in todo && n !in files
      invariant forall n :: DigestMismatch(n) in problems <==>
                  n in listed && n !in todo && n in files && digest(files[n]) != listed[n]
      decreases todo
    {
      var n :| n in todo;
      todo := todo - {n};
      if n !in files {
        problems := problems + [MissingFile(n)];
      } else if digest(files[n]) != listed[n] {
        problems := problems + [DigestMismatch(n)];
      }
    }
  }

  method ManifestMismatches(digest: Digest, files: map<Name, Bytes>, m: Manifest) returns (problems: seq<Problem>)
    ensures problems == [] <==> Matches(digest, files, m)
    ensures forall n :: MissingFile(n) in problems <==> m.files.Some? && n in m.files.value && n !in files
    ensures forall n :: DigestMismatch(n) in problems <==>
              m.files.Some? && n in m.files.value && n in files && digest(files[n]) != m.files.value[n]
  {
    if m.files.None? {
      return [FilesNotObject];
    }
    var listed := m.files.value;
    problems := [];
    if listed == map[] {
      problems := [FilesEmpty];
    } else if DB_NAME !in listed && DB_NAME in files {
      problems := [StoreNotCovered];
    }
    var wrong := ListedProblems(digest, files, listed);
    problems := problems + wrong;
    var extras := set n | n in files && n !in listed && !IsLiveState(n);
    if extras != {} {
      problems := problems + [Unlisted(extras)];
    }
    assert extras == {} <==> forall n :: n in files ==> n in listed || IsLiveState(n);
  }

  // ---- backup ---------------------------------------------------------------------

  function ContentOf(files: map<Name, Bytes>): map<Name, Bytes> {
    map n | n in files && IsContent(n) :: files[n]
  }

  /** The snapshot of the store and the content, with a digest for each. */
  function BackupTree(digest: Digest, live: map<Name, Bytes>, snapshot: Bytes): Tree {
    var files := ContentOf(live)[DB_NAME := snapshot];
    Tree(files, Some(Manifest(Some(map n | n in files :: digest(files[n])))))
  }

  /** What restore stages from an archive: the store and the content only. */
  function StagedFiles(archive: Tree): map<Name, Bytes>
    requires DB_NAME in archive.files
  {
    ContentOf(archive.files)[DB_NAME := archive.files[DB_NAME]]
  }

  /** What a restore of the archive puts in place. */
  function RestoredTree(archive: Tree): Tree {
    if DB_NAME in archive.files then Tree(StagedFiles(archive), archive.manifest) else archive
  }

  lemma BackupPassesItsGate(digest: Digest, live: map<Name, Bytes>, snapshot: Bytes)
    ensures var a := BackupTree(digest, live, snapshot);
            Matches(digest, a.files, a.manifest.value)
            && StagedFiles(a) == a.files
            && a.files[DB_NAME] == snapshot && ContentOf(a.files) == ContentOf(live)
  {
    var a := BackupTree(digest, live, snapshot);
    assert !IsContent(DB_NAME) by { assert DB_NAME[0] == 's'; }
    assert DB_NAME in a.manifest.value.files.value;
  }

  // ---- restore ----------------------------------------------------------------------

  /** Where a directory may stand. */
  datatype Place = Data | Aside | Staged

  /** The points at which an operation may raise or power may be lost. */
  datatype Point = Acquire | MakeStaging | CopyFiles | MoveAside | MoveIn | PutBack

  datatype Fate = Fine | Raises | Crashes

  type Faults = Point -> Fate

  datatype Outcome = Restored | Refused | Failed(at: Point) | Crashed(at: Point)

  type Dirs = map<Place, Tree>

  // ---- how a restore ends ---------------------------------------------------------

  function Stopped(at: Point, faults: Faults): Outcome {
    if faults(at).Raises? then Failed(at) else Crashed(at)
  }

  /** The hold is taken only where there is a store to hold. */
  predicate MustAcquire(dirs: Dirs) {
    Data in dirs && DB_NAME in dirs[Data].files
  }

  /** How the swap ends: at the first point met that goes wrong. */
  function SwapEnds(dirs: Dirs, faults: Faults): Outcome {
    if Data in dirs && !faults(MoveAside).Fine? then Stopped(MoveAside, faults)
    else if faults(MoveIn).Crashes? then Crashed(MoveIn)
    else if faults(MoveIn).Fine? then Restored
    else if Data in dirs && !faults(PutBack).Fine? then Stopped(PutBack, faults)
    else Failed(MoveIn)
  }

  /** How a restore ends; `whole` is an archive with its manifest and store and
      `accepted` one that passes the gate. */
  function Ends(dirs: Dirs, faults: Faults, whole: bool, accepted: bool): Outcome {
    if !whole then Refused
    else if MustAcquire(dirs) && !faults(Acquire).Fine? then Stopped(Acquire, faults)
    else if !faults(MakeStaging).Fine? then Stopped(MakeStaging, faults)
    else if !faults(CopyFiles).Fine? then Stopped(CopyFiles, faults)
    else if !accepted then Refused
    else SwapEnds(dirs, faults)
  }

  /** The old tree moved aside. */
  function MovedAside(dirs: Dirs): Dirs {
    if Data in dirs then (dirs - {Data})[Aside := dirs[Data]] else dirs
  }

  /** What an ending leaves beside the staging directory. */
  function Left(r: Outcome, dirs: Dirs, restored: Tree): Dirs {
    if r.Restored? then MovedAside(dirs)[Data := restored]
    else if r == Failed(PutBack) || r == Crashed(MoveIn) || r == Crashed(PutBack) then MovedAside(dirs)
    else dirs
  }

  /** Only a power loss after staging began leaves the staging directory. */
  predicate LeavesStaging(r: Outcome) {
    r.Crashed? && r.at != Acquire && r.at != MakeStaging
  }

  /** Nothing goes wrong that this restore would meet. */
  ghost predicate Smooth(dirs: Dirs, faults: Faults) {
    && (MustAcquire(dirs) ==> faults(Acquire).Fine?)
    && faults(MakeStaging).Fine? && faults(CopyFiles).Fine? && faults(MoveIn).Fine?
    && (Data in dirs ==> faults(MoveAside).Fine?)
  }

  /** What the ending means: success exactly if the archive is accepted and
      nothing goes wrong; a failure or a power loss only where one struck; and
      short of both, or of a failed put-back, everything as it was. */
  lemma EndingMeans(dirs: Dirs, faults: Faults, whole: bool, accepted: bool, restored: Tree)
    requires Aside !in dirs && (accepted ==> whole)
    ensures var r := Ends(dirs, faults, whole, accepted);
            && (r.Restored? <==> accepted && Smooth(dirs, faults))
            && (r.Failed? ==> faults(r.at).Raises?) && (r.Crashed? ==> faults(r.at).Crashes?)
            && (r.Refused? || (r.Failed? && r.at != PutBack) ==> Left(r, dirs, restored) == dirs)
            && (r == Failed(PutBack) ==> Data in dirs && faults(PutBack).Raises?)
            && (Data in dirs ==> OldTreeStands(Left(r, dirs, restored), dirs[Data]))
  {
  }

  ghost predicate OldTreeStands(dirs: Dirs, t: Tree) {
    (Data in dirs && dirs[Data] == t) || (Aside in dirs && dirs[Aside] == t)
  }

  /** At a moment of a restore the old tree stands at the data directory or
      aside, and the data directory never holds anything but it or the whole
      restored tree. */
  ghost predicate Intact(dirs: Dirs, before: Dirs, restored: Tree) {
    && (Data in before ==> OldTreeStands(dirs, before[Data]))
    && (Data in dirs ==> dirs[Data] == restored || (Data in before && dirs[Data] == before[Data]))
  }

  lemma Untouched(d: Dirs, before: Dirs, restored: Tree)
    requires d - {Staged} == before
    ensures Intact(d, before, restored)
  {
    assert Data in d <==> Data in d - {Staged};
  }

  /** A fault met before the swap. */
  predicate BeforeSwap(r: Outcome) {
    (r.Failed? || r.Crashed?) && (r.at.Acquire? || r.at.MakeStaging? || r.at.CopyFiles?)
  }

  class Disk {
    const digest: Digest
    const integral: Bytes -> bool     // the store's own integrity check
    var dirs: Dirs
    ghost var past: seq<Dirs>         // every state the disk has passed through

    constructor (digest: Digest, integral: Bytes -> bool, dirs: Dirs)
      ensures this.digest == digest && this.integral == integral && this.dirs == dirs && past == [dirs]
    {
      this.digest := digest;
      this.integral := integral;
      this.dirs := dirs;
      past := [dirs];
    }

    /** Everything restore asks of the archive itself. */
    ghost predicate Acceptable(archive: Tree)
      reads this
    {
      && archive.manifest.Some? && DB_NAME in archive.files
      && Matches(digest, StagedFiles(archive), archive.manifest.value)
      && integral(archive.files[DB_NAME])
    }

    method Put(p: Place, t: Tree)
      modifies this
      ensures dirs == old(dirs)[p := t] && past == old(past) + [dirs]
    {
      dirs := dirs[p := t];
      past := past + [dirs];
    }

    /** An atomic rename onto an absent name. */
    method Rename(src: Place, dst: Place)
      requires src in dirs && dst !in dirs && src != dst
      modifies this
      ensures dirs == (old(dirs) - {src})[dst := old(dirs)[src]] && past == old(past) + [dirs]
    {
      dirs := (dirs - {src})[dst := dirs[src]];
      past := past + [dirs];
    }

    method Drop(p: Place)
      modifies this
      ensures dirs == old(dirs) - {p} && past == old(past) + [dirs]
    {
      dirs := dirs - {p};
      past := past + [dirs];
    }

    /** The gate: manifest mismatches of what was staged, then the store's
        integrity. */
    method Gate(archive: Tree) returns (ok: bool)
      requires archive.manifest.Some? && DB_NAME in archive.files
      ensures ok <==> Acceptable(archive)
    {
      var problems := ManifestMismatches(digest, StagedFiles(archive), archive.manifest.value);
      ok := problems == [] && integral(archive.files[DB_NAME]);
    }

    /** The disk records every state it passes through, the present one last. */
    ghost predicate Recorded()
      reads this
    {
      past != [] && past[|past| - 1] == dirs
    }

    /** Everything before the swap: the hold, the staging and the gate. `None`
        goes on, with the restored tree staged. */
    method Prepare(archive: Tree, faults: Faults) returns (r: Option<Outcome>)
      requires Recorded() && Staged !in dirs
      modifies this
      ensures var ends := Ends(old(dirs), faults, archive.manifest.Some? && DB_NAME in archive.files, Acceptable(archive));
              if r.Some? then r.value == ends && (ends.Refused? || BeforeSwap(ends)) else ends == SwapEnds(old(dirs), faults)
      ensures dirs - {Staged} == old(dirs)
      ensures Staged in dirs <==> (r.Some? ==> LeavesStaging(r.value))
      ensures r.None? ==> dirs[Staged] == RestoredTree(archive)
      ensures Recorded() && old(past) <= past
      ensures forall d :: d in past[|old(past)|..] ==> d - {Staged} == old(dirs)
    {
      hide Matches, StagedFiles, SwapEnds;
      if archive.manifest.None? || DB_NAME !in archive.files {
        return Some(Refused);
      }
      if Data in dirs && DB_NAME in dirs[Data].files && !faults(Acquire).Fine? {
        return Some(if faults(Acquire).Raises? then Failed(Acquire) else Crashed(Acquire));
      }
      if !faults(MakeStaging).Fine? {
        return Some(if faults(MakeStaging).Raises? then Failed(MakeStaging) else Crashed(MakeStaging));
      }
      Put(Staged, Tree(map[], None));
      if !faults(CopyFiles).Fine? {
        if faults(CopyFiles).Crashes? { return Some(Crashed(CopyFiles)); }
        Drop(Staged);
        return Some(Failed(CopyFiles));
      }
      Put(Staged, Tree(StagedFiles(archive), archive.manifest));
      var ok := Gate(archive);
      if !ok {
        Drop(Staged);
        return Some(Refused);
      }
      return None;
    }

    /** The restore as a whole ends at the first point that goes wrong, leaves
        exactly what that ending leaves, and at every moment keeps the old tree
        in one piece. */
    method Restore(archive: Tree, faults: Faults) returns (r: Outcome)
      requires Recorded() && Staged !in dirs && Aside !in dirs
      modifies this
      ensures r == Ends(old(dirs), faults, archive.manifest.Some? && DB_NAME in archive.files, Acceptable(archive))
      ensures dirs - {Staged} == Left(r, old(dirs), RestoredTree(archive))
      ensures Staged in dirs <==> LeavesStaging(r)
      // every moment in between, for a power loss at any of them
      ensures Recorded() && old(past) <= past
      ensures forall d :: d in past[|old(past)|..] ==> Intact(d, old(dirs), RestoredTree(archive))
    {
      hide Matches, StagedFiles, RestoredTree, SwapEnds;
      ghost var before := dirs;
      var early := Prepare(archive, faults);
      forall d | d in past[|old(past)|..] ensures Intact(d, before, RestoredTree(archive)) {
        Untouched(d, before, RestoredTree(archive));
      }
      if early.Some? {
        return early.value;
      }
      ghost var prepared := past;
      r := Swap(faults, before);
      forall d | d in past[|old(past)|..] ensures Intact(d, before, RestoredTree(archive)) {
        assert past == prepared + past[|prepared|..];
        assert d in prepared[|old(past)|..] || d in past[|prepared|..];
      }
    }

    /** The swap: aside, in, and back if that fails. */
    method Swap(faults: Faults, ghost before: Dirs) returns (r: Outcome)
      requires Recorded() && Staged in dirs && Aside !in dirs && dirs - {Staged} == before && Staged !in before
      modifies this
      ensures r == SwapEnds(before, faults)
      ensures dirs - {Staged} == Left(r, before, old(dirs)[Staged])
      ensures Staged in dirs <==> LeavesStaging(r)
      ensures Recorded() && old(past) <= past
      ensures forall d :: d in past[|old(past)|..] ==> Intact(d, before, old(dirs)[Staged])
    {
      if Data in dirs {
        if !faults(MoveAside).Fine? {
          if faults(MoveAside).Crashes? { return Crashed(MoveAside); }
          Drop(Staged);
          return Failed(MoveAside);
        }
        Rename(Data, Aside);
      }
      if faults(MoveIn).Crashes? {
        return Crashed(MoveIn);
      }
      if faults(MoveIn).Raises? {
        if Aside in dirs {
          if faults(PutBack).Crashes? { return Crashed(PutBack); }
          if faults(PutBack).Raises? {
            Drop(Staged);
            return Failed(PutBack);
          }
          Rename(Aside, Data);
        }
        Drop(Staged);
        return Failed(MoveIn);
      }
      Rename(Staged, Data);
      return Restored;
    }
  }

  // ---- verify ---------------------------------------------------------------------------

  predicate VerifiesClean(digest: Digest, integral: Bytes -> bool, t: Tree) {
    && t.manifest.Some? && Matches(digest, t.files, t.manifest.value)
    && (DB_NAME in t.files ==> integral(t.files[DB_NAME]))
  }

  /** What backup makes, restore accepts if and only if the snapshot passes the
      store's integrity check, which backup itself does not make; and then what
      it leaves verifies clean with the same store image and content. */
  lemma BackupRestoresExactly(d: Disk, live: map<Name, Bytes>, snapshot: Bytes)
    ensures var a := BackupTree(d.digest, live, snapshot);
            && (d.Acceptable(a) <==> d.integral(snapshot))
            && (VerifiesClean(d.digest, d.integral, RestoredTree(a)) <==> d.integral(snapshot))
            && RestoredTree(a).files[DB_NAME] == snapshot && ContentOf(RestoredTree(a).files) == ContentOf(live)
  {
    BackupPassesItsGate(d.digest, live, snapshot);
  }

  /** A backup that matches its manifest and is refused though nothing goes wrong. */
  ghost predicate RefusedBackup(digest: Digest, integral: Bytes -> bool, snapshot: Bytes, dirs: Dirs, faults: Faults) {
    var a := BackupTree(digest, map[], snapshot);
    && !integral(snapshot) && Matches(digest, a.files, a.manifest.value) && Smooth(dirs, faults)
    && Ends(dirs, faults, true, integral(snapshot)) == Refused
  }

  /** So a corrupt store is backed up, and its backup is refused. */
  lemma CorruptBackupIsRefused()
    ensures exists digest, integral, snapshot, dirs, faults :: RefusedBackup(digest, integral, snapshot, dirs, faults)
  {
    var digest: Digest := (b: Bytes) => "";
    var integral := (b: Bytes) => false;
    var faults: Faults := (p: Point) => Fine;
    BackupPassesItsGate(digest, map[], []);
    assert RefusedBackup(digest, integral, [], map[], faults);
  }

  /** Live state added beside a verified tree keeps it verified. */
  lemma LiveStateIsTolerated(digest: Digest, integral: Bytes -> bool, t: Tree, extra: map<Name, Bytes>)
    requires VerifiesClean(digest, integral, t)
    requires forall n :: n in extra ==> IsLiveState(n) && n !in t.manifest.value.files.value && n != DB_NAME
    ensures VerifiesClean(digest, integral, t.(files := t.files + extra))
  {}

  /** With a digest free of collisions, the only staged tree a backup's manifest
      accepts is the backup itself: nothing altered, missing or added. */
  lemma GateAcceptsOnlyTheBackup(digest: Digest, live: map<Name, Bytes>, snapshot: Bytes, archive: Tree)
    requires forall a, b :: digest(a) == digest(b) ==> a == b
    requires archive.manifest == BackupTree(digest, live, snapshot).manifest && DB_NAME in archive.files
    ensures Matches(digest, StagedFiles(archive), archive.manifest.value)
       <==> StagedFiles(archive) == BackupTree(digest, live, snapshot).files
  {
    var a := BackupTree(digest, live, snapshot);
    BackupPassesItsGate(digest, live, snapshot);
    var staged := StagedFiles(archive);
    if Matches(digest, staged, archive.manifest.value) {
      forall n | n in staged ensures n in a.files && a.files[n] == staged[n] {
        if IsContent(n) { ContentIsNotLiveState(n); }
        assert n in a.manifest.value.files.value;
        assert digest(staged[n]) == digest(a.files[n]);
      }
      forall n | n in a.files ensures n in staged {
        assert n in a.manifest.value.files.value;
      }
    }
  }

  lemma ContentIsNotLiveState(n: Name)
    requires IsContent(n)
    ensures !IsLiveState(n)
  {
    assert n[0] == CONTENT_PREFIX[0] == 'c';
    assert forall u :: u in UNLISTED_OK ==> u[0] != 'c';
    assert REGISTRY_PREFIX[0] == 'r';
  }

  predicate Under(name: Name, directory: string) {
    |name| > |directory| && name[..|directory|] == directory && name[|directory|] == '/'
  }

  /** What backup takes of a directory and what a gate tolerates in it, by name. */
  lemma NamesExactly(files: map<Name, Bytes>, n: Name)
    ensures n in ContentOf(files) <==> n in files && Under(n, "content")
    ensures n in ContentOf(files) ==> ContentOf(files)[n] == files[n]
    ensures IsLiveState(n) <==>
      n in ["manifest.json", "benchweave.env", "state.sqlite-wal", "state.sqlite-shm", "state.sqlite.hold"]
      || Under(n, "registry")
    ensures DB_NAME == "state.sqlite"
  {
    PrefixIsUnder(n, "content");
    PrefixIsUnder(n, "registry");
    assert CONTENT_PREFIX == "content" + "/" && REGISTRY_PREFIX == "registry" + "/";
  }

  lemma PrefixIsUnder(n: Name, directory: string)
    ensures directory + "/" <= n <==> Under(n, directory)
  {
    if Under(n, directory) { assert n == directory + "/" + n[|directory| + 1..]; }
  }
}
