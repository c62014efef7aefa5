/**
  The version part of a release: the guard before a bump, the bump (`run_bump`), and the check after
  it, that every version surface reads back as the new version (scripts/release.py).
 */
module ReleaseBump {
  import opened DataModel
  import VF = VersionFiles
  import LF = LockFiles

  /**
    The files a bump rewrites, in the order it does: `jvm` is the stripped text of the VERSION file, and
    `changelog` the versions that have a section in the changelog.
   */
  datatype Files = Files(
    cargo: seq<VF.Line>,
    pyCargo: seq<VF.Line>,
    pyproject: seq<VF.Line>,
    jvm: string,
    cargoLock: seq<LF.Line>,
    pyCargoLock: seq<LF.Line>,
    uvLock: seq<LF.Line>,
    changelog: set<string>)

  /**
    What decides the steps that look beyond these files: whether `gradle.properties` and the poms have a
    version to replace, whether the changelog has a section to insert before, the lock file that
    `cargo generate-lockfile` writes if it succeeds, and whether the trial publication does.
   */
  datatype Rest = Rest(jvmFilesOk: bool, changelogOk: bool, synced: Option<seq<LF.Line>>, publishOk: bool)

  datatype Failure =
    | CargoFailed
    | PyCargoFailed
    | PyprojectFailed
    | Snapshot
    | JvmFilesFailed
    | CargoLockFailed
    | PyCargoLockFailed
    | UvLockFailed
    | ChangelogFailed
    | SyncFailed
    | PublishFailed

  const STAGES: nat := 11

  const CORE: string := "rust-data-processing"
  const WRAPPER: string := "rust_data_processing_py"
  const LOCKED: set<string> := {CORE, WRAPPER}
  const SNAPSHOT: string := "-SNAPSHOT"

  /** `"-SNAPSHOT" in v`. */
  predicate HasSnapshot(v: string) {
    |v| >= |SNAPSHOT| && (SNAPSHOT <= v || HasSnapshot(v[1..]))
  }

  /** The refused versions are those in which the word stands anywhere. */
  lemma {:induction false} SnapshotAnywhere(v: string)
    ensures HasSnapshot(v) <==> exists i: nat :: i <= |v| && "-SNAPSHOT" <= v[i..]
  {
    if HasSnapshot(v) {
      if SNAPSHOT <= v {
        assert v[0..] == v;
      } else {
        SnapshotAnywhere(v[1..]);
        var i: nat :| i <= |v[1..]| && "-SNAPSHOT" <= v[1..][i..];
        assert v[1..][i..] == v[i + 1..];
      }
    }
    if i: nat :| i <= |v| && "-SNAPSHOT" <= v[i..] {
      if i == 0 {
        assert v[0..] == v;
      } else {
        SnapshotAnywhere(v[1..]);
        assert v[1..][i - 1..] == v[i..];
      }
    }
  }

  ghost predicate Writable(d: VF.Dialect, lines: seq<VF.Line>) {
    exists i: nat :: VF.Replaces(d, lines, i)
  }

  /** The file with its version line replaced, where there is one. */
  ghost function WithVersion(d: VF.Dialect, lines: seq<VF.Line>, v: string): seq<VF.Line> {
    if Writable(d, lines) then
      var i: nat :| VF.Replaces(d, lines, i);
      lines[i := VF.NewVersion(v)]
    else lines
  }

  // ---------- stages ----------

  /** Does stage `n` of the bump succeed? No stage looks at a file that an earlier one has written. */
  ghost predicate StageOk(f: Files, v: string, rest: Rest, n: nat) {
    match n
    case 0 => Writable(VF.Cargo, f.cargo)
    case 1 => Writable(VF.Cargo, f.pyCargo)
    case 2 => Writable(VF.Pyproject, f.pyproject)
    case 3 => !HasSnapshot(v)
    case 4 => rest.jvmFilesOk
    case 5 => LF.Bumps(LF.Names(LOCKED), f.cargoLock)
    case 6 => LF.Bumps(LF.Names(LOCKED), f.pyCargoLock)
    case 7 => LF.Bumps(LF.Seen(CORE), f.uvLock)
    case 8 => v !in f.changelog && rest.changelogOk
    case 9 => rest.synced.Some?
    case 10 => rest.publishOk
    case _ => true
  }

  function FailureOf(n: nat): Failure {
    match n
    case 0 => CargoFailed
    case 1 => PyCargoFailed
    case 2 => PyprojectFailed
    case 3 => Snapshot
    case 4 => JvmFilesFailed
    case 5 => CargoLockFailed
    case 6 => PyCargoLockFailed
    case 7 => UvLockFailed
    case 8 => ChangelogFailed
    case 9 => SyncFailed
    case _ => PublishFailed
  }

  /** The files once the first `n` stages have been written. */
  ghost function After(f: Files, v: string, rest: Rest, n: nat): Files {
    Files(
      if n > 0 then WithVersion(VF.Cargo, f.cargo, v) else f.cargo,
      if n > 1 then WithVersion(VF.Cargo, f.pyCargo, v) else f.pyCargo,
      if n > 2 then WithVersion(VF.Pyproject, f.pyproject, v) else f.pyproject,
      if n > 3 then v else f.jvm,
      if n > 9 && rest.synced.Some? then rest.synced.value
      else if n > 5 then LF.Bumped(LF.Names(LOCKED), f.cargoLock, v) else f.cargoLock,
      if n > 6 then LF.Bumped(LF.Names(LOCKED), f.pyCargoLock, v) else f.pyCargoLock,
      if n > 7 then LF.Bumped(LF.Seen(CORE), f.uvLock, v) else f.uvLock,
      if n > 8 then f.changelog + {v} else f.changelog)
  }

  /** All stages from `from` on succeed. */
  ghost predicate AllOk(f: Files, v: string, rest: Rest, from: nat) {
    forall n: nat :: from <= n < STAGES ==> StageOk(f, v, rest, n)
  }

  /** Stage `n` is the first, from `from` on, that cannot be done. */
  ghost predicate StopsAt(f: Files, v: string, rest: Rest, from: nat, n: nat) {
    from <= n < STAGES && !StageOk(f, v, rest, n) && forall k: nat :: from <= k < n ==> StageOk(f, v, rest, k)
  }

  /**
    How a bump of `f` may end, given that the stages before `from` succeeded: all stages written, or
    exactly those before the first that cannot be done, and its failure reported.
   */
  ghost predicate Ends(f: Files, v: string, rest: Rest, from: nat, e: Option<Failure>, files: Files) {
    match e
    case None => AllOk(f, v, rest, from) && files == After(f, v, rest, STAGES)
    case Some(failure) => exists n: nat ::
      StopsAt(f, v, rest, from, n) && failure == FailureOf(n) && files == After(f, v, rest, n)
  }

  lemma StopsHere(f: Files, v: string, rest: Rest, n: nat)
    requires n < STAGES && !StageOk(f, v, rest, n)
    ensures Ends(f, v, rest, n, Some(FailureOf(n)), After(f, v, rest, n))
  {
    assert StopsAt(f, v, rest, n, n);
  }

  /**
    Read off the lock files once `n` stages are written: every block of the two packages, and the uv lock
    file's block of the first, has the version `v`. Cargo's own lock file is then cargo's from stage 9 on.
   */
  ghost predicate LocksRead(f: Files, v: string, n: nat) {
    && (5 < n <= 9 ==> LF.LocksAt(LF.Names({"rust-data-processing", "rust_data_processing_py"}), f.cargoLock, v))
    && (6 < n ==> LF.LocksAt(LF.Names({"rust-data-processing", "rust_data_processing_py"}), f.pyCargoLock, v))
    && (7 < n ==> LF.LocksAt(LF.Seen("rust-data-processing"), f.uvLock, v))
  }

  /** Whatever stages were written, the lock files among them read as the new version. */
  lemma WrittenLocksRead(f: Files, v: string, rest: Rest, n: nat)
    requires '"' !in v && forall k: nat :: k < n ==> StageOk(f, v, rest, k)
    ensures LocksRead(After(f, v, rest, n), v, n)
  {
    if n > 5 {
      assert StageOk(f, v, rest, 5);
      LF.BumpedLocksAt(LF.Names(LOCKED), f.cargoLock, v);
    }
    if n > 6 {
      assert StageOk(f, v, rest, 6);
      LF.BumpedLocksAt(LF.Names(LOCKED), f.pyCargoLock, v);
    }
    if n > 7 {
      assert StageOk(f, v, rest, 7);
      LF.BumpedLocksAt(LF.Seen(CORE), f.uvLock, v);
    }
  }

  datatype Verdict = Refused | Stopped(failure: Failure) | NotAligned | Released

  /** What the guard before a bump asks for. */
  ghost predicate Admitted(f: Files, v: string) {
    exists rv ::
      && ReadsVersion(VF.Cargo, f.cargo, rv) && ReadsVersion(VF.Cargo, f.pyCargo, rv)
      && ReadsVersion(VF.Pyproject, f.pyproject, rv) && rv != v
  }

  lemma ReadOnce(d: VF.Dialect, lines: seq<VF.Line>, r: Result<string, VF.VersionError>)
    requires r.Ok? <==> exists i: nat :: VF.ReadsAt(d, lines, i)
    requires forall i: nat :: VF.ReadsAt(d, lines, i) ==> r.Ok? && lines[i].value == Some(r.value)
    ensures forall rv :: ReadsVersion(d, lines, rv) <==> r == Ok(rv)
  {
    if r.Ok? {
      var i: nat :| VF.ReadsAt(d, lines, i);
      assert ReadsVersion(d, lines, r.value);
    }
  }

  /** The repository's version files. */
  class Repository {
    var files: Files

    constructor (files: Files)
      ensures this.files == files
    {
      this.files := files;
    }

    /**
      `run_bump`: nothing is rolled back. On success all stages are written; on failure exactly the
      stages before the first one that cannot be done.
     */
    method RunBump(v: string, rest: Rest) returns (e: Option<Failure>)
      modifies this
      ensures Ends(old(files), v, rest, 0, e, files)
      ensures e.None? && '"' !in v ==> LocksRead(files, v, STAGES)
    {
      e := BumpManifests(v, rest);
      if e.None? {
        e := BumpJvm(old(files), v, rest);
      }
      if e.None? && '"' !in v {
        WrittenLocksRead(old(files), v, rest, STAGES);
      }
    }

    /** The three manifests, in turn. */
    method BumpManifests(v: string, rest: Rest) returns (e: Option<Failure>)
      modifies this
      ensures e.None? ==>
        files == After(old(files), v, rest, 3) && forall n: nat :: n < 3 ==> StageOk(old(files), v, rest, n)
      ensures e.Some? ==> Ends(old(files), v, rest, 0, e, files)
    {
      ghost var f := files;
      var cargo := VF.SetVersionInCargoPackage(files.cargo, v);
      if cargo.Err? {
        StopsHere(f, v, rest, 0);
        return Some(CargoFailed);
      }
      files := files.(cargo := cargo.value);
      var pyCargo := VF.SetVersionInCargoPackage(files.pyCargo, v);
      if pyCargo.Err? {
        StopsHere(f, v, rest, 1);
        return Some(PyCargoFailed);
      }
      files := files.(pyCargo := pyCargo.value);
      var pyproject := VF.SetVersionInPyproject(files.pyproject, v);
      if pyproject.Err? {
        StopsHere(f, v, rest, 2);
        return Some(PyprojectFailed);
      }
      files := files.(pyproject := pyproject.value);
      e := None;
    }

    /** `set_jvm_version_files`, then the rest. `f` is what the whole bump started from. */
    method BumpJvm(ghost f: Files, v: string, rest: Rest) returns (e: Option<Failure>)
      requires files == After(f, v, rest, 3)
      modifies this
      ensures Ends(f, v, rest, 3, e, files)
    {
      if HasSnapshot(v) {
        StopsHere(f, v, rest, 3);
        return Some(Snapshot);
      }
      files := files.(jvm := v);
      if !rest.jvmFilesOk {
        StopsHere(f, v, rest, 4);
        return Some(JvmFilesFailed);
      }
      e := BumpLocks(f, v, rest);
    }

    /** The three lock files, then what follows them. */
    method BumpLocks(ghost f: Files, v: string, rest: Rest) returns (e: Option<Failure>)
      requires files == After(f, v, rest, 5)
      modifies this
      ensures Ends(f, v, rest, 5, e, files)
    {
      var cargoLock := LF.BumpCargoLock(files.cargoLock, LOCKED, v);
      if cargoLock.Err? {
        StopsHere(f, v, rest, 5);
        return Some(CargoLockFailed);
      }
      files := files.(cargoLock := cargoLock.value);
      var pyCargoLock := LF.BumpCargoLock(files.pyCargoLock, LOCKED, v);
      if pyCargoLock.Err? {
        StopsHere(f, v, rest, 6);
        return Some(PyCargoLockFailed);
      }
      files := files.(pyCargoLock := pyCargoLock.value);
      e := BumpUv(f, v, rest);
    }

    method BumpUv(ghost f: Files, v: string, rest: Rest) returns (e: Option<Failure>)
      requires files == After(f, v, rest, 7)
      modifies this
      ensures Ends(f, v, rest, 7, e, files)
    {
      var uvLock := LF.BumpUvLock(files.uvLock, CORE, v);
      if uvLock.Err? {
        StopsHere(f, v, rest, 7);
        return Some(UvLockFailed);
      }
      files := files.(uvLock := uvLock.value);
      e := BumpChangelog(f, v, rest);
    }

    /** The changelog, then the two runs of cargo. */
    method BumpChangelog(ghost f: Files, v: string, rest: Rest) returns (e: Option<Failure>)
      requires files == After(f, v, rest, 8)
      modifies this
      ensures Ends(f, v, rest, 8, e, files)
    {
      if v in files.changelog || !rest.changelogOk {
        StopsHere(f, v, rest, 8);
        return Some(ChangelogFailed);
      }
      files := files.(changelog := files.changelog + {v});
      if rest.synced.None? {
        StopsHere(f, v, rest, 9);
        return Some(SyncFailed);
      }
      files := files.(cargoLock := rest.synced.value);
      if !rest.publishOk {
        StopsHere(f, v, rest, 10);
        return Some(PublishFailed);
      }
      e := None;
    }

    /**
      The release up to the version check: unless the three manifests read one version, and another one
      than the new, nothing is touched.
     */
    method Release(v: string, rest: Rest) returns (r: Verdict)
      modifies this
      ensures r.Refused? <==> !Admitted(old(files), v)
      ensures r.Refused? ==> files == old(files)
      ensures r.Stopped? ==> Ends(old(files), v, rest, 0, Some(r.failure), files)
      ensures r.Released? || r.NotAligned? ==> Ends(old(files), v, rest, 0, None, files)
      ensures r.Released? ==> Aligned(files, v)
      ensures r.NotAligned? ==> !Aligned(files, v)
    {
      var root := VF.GetVersionCargoPackage(files.cargo);
      var py := VF.GetVersionCargoPackage(files.pyCargo);
      var proj := VF.GetVersionPyproject(files.pyproject);
      ReadOnce(VF.Cargo, files.cargo, root);
      ReadOnce(VF.Cargo, files.pyCargo, py);
      ReadOnce(VF.Pyproject, files.pyproject, proj);
      if root.Err? || py.Err? || proj.Err? || root != py || root != proj || root == Ok(v) {
        return Refused;
      }
      assert Admitted(files, v);
      var e := RunBump(v, rest);
      if e.Some? {
        return Stopped(e.value);
      }
      var ok := AllSurfacesAt(v);
      r := if ok then Released else NotAligned;
    }

    /** `read_aligned_versions` and the comparison after it. */
    method AllSurfacesAt(v: string) returns (ok: bool)
      ensures ok <==> Aligned(files, v)
      ensures ok ==> files.jvm == v
    {
      var root := VF.GetVersionCargoPackage(files.cargo);
      var py := VF.GetVersionCargoPackage(files.pyCargo);
      var proj := VF.GetVersionPyproject(files.pyproject);
      ok := root == Ok(v) && py == Ok(v) && proj == Ok(v) && files.jvm == v;
    }
  }

  ghost predicate ReadsVersion(d: VF.Dialect, lines: seq<VF.Line>, v: string) {
    exists i: nat :: VF.ReadsAt(d, lines, i) && lines[i].value == Some(v)
  }

  ghost predicate Aligned(f: Files, v: string) {
    && ReadsVersion(VF.Cargo, f.cargo, v) && ReadsVersion(VF.Cargo, f.pyCargo, v)
    && ReadsVersion(VF.Pyproject, f.pyproject, v) && f.jvm == v
  }

  /** The replaced line stands in the first run of `[package]`. */
  ghost predicate InFirstRun(lines: seq<VF.Line>) {
    forall i: nat :: VF.Replaces(VF.Cargo, lines, i) ==> VF.FirstRun(lines, i)
  }

  lemma CargoReadsBack(lines: seq<VF.Line>, v: string)
    requires Writable(VF.Cargo, lines)
    ensures ReadsVersion(VF.Cargo, WithVersion(VF.Cargo, lines, v), v) <==> InFirstRun(lines)
  {
    var i: nat :| VF.Replaces(VF.Cargo, lines, i) && WithVersion(VF.Cargo, lines, v) == lines[i := VF.NewVersion(v)];
    assert forall k: nat :: VF.Replaces(VF.Cargo, lines, k) ==> k == i;
    VF.CargoGetPut(lines, i, v);
  }

  lemma PyprojectReadsBack(lines: seq<VF.Line>, v: string)
    requires Writable(VF.Pyproject, lines)
    ensures ReadsVersion(VF.Pyproject, WithVersion(VF.Pyproject, lines, v), v)
  {
    var i: nat :| VF.Replaces(VF.Pyproject, lines, i)
               && WithVersion(VF.Pyproject, lines, v) == lines[i := VF.NewVersion(v)];
    VF.PyprojectGetPut(lines, i, v);
  }

  /**
    After a complete bump the four surfaces read back as the new version exactly when, in both
    Cargo manifests, the replaced line stands in the first run of `[package]`; a manifest with one
    `[package]` header always satisfies this.
   */
  lemma BumpAligns(f: Files, v: string, rest: Rest)
    requires AllOk(f, v, rest, 0)
    ensures Aligned(After(f, v, rest, STAGES), v) <==> InFirstRun(f.cargo) && InFirstRun(f.pyCargo)
  {
    assert StageOk(f, v, rest, 0) && StageOk(f, v, rest, 1) && StageOk(f, v, rest, 2);
    CargoReadsBack(f.cargo, v);
    CargoReadsBack(f.pyCargo, v);
    PyprojectReadsBack(f.pyproject, v);
  }

  lemma WithVersionTwice(d: VF.Dialect, lines: seq<VF.Line>, v: string, w: string)
    ensures WithVersion(d, WithVersion(d, lines, v), w) == WithVersion(d, lines, w)
    ensures Writable(d, WithVersion(d, lines, v)) <==> Writable(d, lines)
  {
    if Writable(d, lines) {
      var i: nat :| VF.Replaces(d, lines, i) && WithVersion(d, lines, v) == lines[i := VF.NewVersion(v)];
      VF.PutPut(d, lines, i, v, w);
      assert forall k: nat :: VF.Replaces(d, lines, k) ==> k == i;
    }
  }

  /**
    Whether a stage can be done after `n` stages of another bump: as before, but that the section which
    the other one wrote stands in the changelog, and that cargo's lock file has taken the bumped one's place.
   */
  lemma StageAfter(f: Files, v: string, rest: Rest, n: nat, w: string, next: Rest, k: nat)
    requires n <= STAGES && k < STAGES && (n > 9 ==> rest.synced.Some?)
    ensures StageOk(After(f, v, rest, n), w, next, k) <==>
      && (if k == 5 && n > 9 then LF.Bumps(LF.Names(LOCKED), rest.synced.value) else StageOk(f, w, next, k))
      && (k == 8 && n > 8 ==> w != v)
  {
    match k {
      case 0 => WithVersionTwice(VF.Cargo, f.cargo, v, w);
      case 1 => WithVersionTwice(VF.Cargo, f.pyCargo, v, w);
      case 2 => WithVersionTwice(VF.Pyproject, f.pyproject, v, w);
      case 5 => LF.BumpTwice(LF.Names(LOCKED), f.cargoLock, v, w);
      case 6 => LF.BumpTwice(LF.Names(LOCKED), f.pyCargoLock, v, w);
      case 7 => LF.BumpTwice(LF.Seen(CORE), f.uvLock, v, w);
      case _ =>
    }
  }

  /**
    A complete bump after `n` stages of another ends as it would have alone, but for the changelog, which
    keeps the other's section if it was written.
   */
  lemma BumpAfter(f: Files, v: string, rest: Rest, n: nat, w: string, next: Rest)
    requires n <= STAGES && next.synced.Some?
    ensures After(After(f, v, rest, n), w, next, STAGES)
         == After(f, w, next, STAGES).(changelog := f.changelog + (if n > 8 then {v, w} else {w}))
  {
    WithVersionTwice(VF.Cargo, f.cargo, v, w);
    WithVersionTwice(VF.Cargo, f.pyCargo, v, w);
    WithVersionTwice(VF.Pyproject, f.pyproject, v, w);
    LF.BumpTwice(LF.Names(LOCKED), f.pyCargoLock, v, w);
    LF.BumpTwice(LF.Seen(CORE), f.uvLock, v, w);
  }

  /**
    Two complete bumps: the second can follow exactly when it is of another version and could have been
    made alone, cargo's lock file permitting; both sections are then in the changelog.
   */
  lemma BumpTwice(f: Files, v: string, rest: Rest, w: string, next: Rest)
    requires rest.synced.Some? && LF.Bumps(LF.Names(LOCKED), f.cargoLock)
    ensures AllOk(After(f, v, rest, STAGES), w, next, 0) <==>
      AllOk(f, w, next, 0) && w != v && LF.Bumps(LF.Names(LOCKED), rest.synced.value)
    ensures next.synced.Some? ==>
      After(After(f, v, rest, STAGES), w, next, STAGES)
      == After(f, w, next, STAGES).(changelog := f.changelog + {v, w})
  {
    StagesAfter(f, v, rest, STAGES, w, next);
    assert StageOk(f, w, next, 5);
    if next.synced.Some? {
      BumpAfter(f, v, rest, STAGES, w, next);
    }
  }

  /** All stages together. */
  lemma StagesAfter(f: Files, v: string, rest: Rest, n: nat, w: string, next: Rest)
    requires n <= STAGES && (n > 9 ==> rest.synced.Some?)
    ensures AllOk(After(f, v, rest, n), w, next, 0) <==>
      && (forall k: nat :: k < STAGES && !(k == 5 && n > 9) ==> StageOk(f, w, next, k))
      && (n > 9 ==> LF.Bumps(LF.Names(LOCKED), rest.synced.value))
      && (n > 8 ==> w != v)
  {
    var g := After(f, v, rest, n);
    forall k: nat | k < STAGES
      ensures StageOk(g, w, next, k) <==>
        && (if k == 5 && n > 9 then LF.Bumps(LF.Names(LOCKED), rest.synced.value) else StageOk(f, w, next, k))
        && (k == 8 && n > 8 ==> w != v)
    {
      StageAfter(f, v, rest, n, w, next, k);
    }
    if AllOk(g, w, next, 0) {
      assert StageOk(g, w, next, 5) && StageOk(g, w, next, 8);
    }
  }

  /**
    `run_bump` again, for the same version, after it stopped with `n` stages written: it completes exactly
    when no stage can fail any more and the changelog had not been reached. Once its section is written
    the rerun is refused there for good, as after a failure of cargo. Where it completes, it ends as an
    undisturbed bump would.
   */
  lemma RerunCompletesIff(f: Files, v: string, rest: Rest, n: nat, next: Rest)
    requires n <= STAGES && (n > 9 ==> rest.synced.Some?)
    ensures AllOk(After(f, v, rest, n), v, next, 0) <==> n <= 8 && AllOk(f, v, next, 0)
    ensures AllOk(After(f, v, rest, n), v, next, 0) ==>
      After(After(f, v, rest, n), v, next, STAGES) == After(f, v, next, STAGES)
  {
    StagesAfter(f, v, rest, n, v, next);
    if n <= 8 && AllOk(f, v, next, 0) {
      assert StageOk(f, v, next, 9);
      BumpAfter(f, v, rest, n, v, next);
    }
  }

  // ---------- the guard before a rerun ----------

  /** Once it was written, the root manifest reads as the new version or not at all. */
  lemma RootReadsNewOrNothing(lines: seq<VF.Line>, v: string, rv: string)
    requires Writable(VF.Cargo, lines) && ReadsVersion(VF.Cargo, WithVersion(VF.Cargo, lines, v), rv)
    ensures rv == v
  {
    var i: nat :| VF.Replaces(VF.Cargo, lines, i) && WithVersion(VF.Cargo, lines, v) == lines[i := VF.NewVersion(v)];
    VF.CargoGetPut(lines, i, v);
    var out := lines[i := VF.NewVersion(v)];
    var k: nat :| VF.ReadsAt(VF.Cargo, out, k) && out[k].value == Some(rv);
    assert VF.ReadsAt(VF.Cargo, out, i) && k == i;
  }

  /**
    The release as a whole cannot be run again for the version it stopped at: as soon as the root manifest
    is written the guard refuses it, whatever else was.
   */
  lemma GuardRefusesRerunIff(f: Files, v: string, rest: Rest, n: nat)
    requires n <= STAGES && (n > 0 ==> Writable(VF.Cargo, f.cargo))
    ensures Admitted(After(f, v, rest, n), v) <==> n == 0 && Admitted(f, v)
  {
    if n == 0 {
      assert After(f, v, rest, 0) == f;
    } else if Admitted(After(f, v, rest, n), v) {
      var rv :| ReadsVersion(VF.Cargo, After(f, v, rest, n).cargo, rv) && rv != v;
      RootReadsNewOrNothing(f.cargo, v, rv);
    }
  }

  /** From the third manifest on, another version is let through exactly when all three read back. */
  lemma GuardAdmitsOther(f: Files, v: string, rest: Rest, n: nat, w: string)
    requires 3 <= n <= STAGES && w != v
    requires Writable(VF.Cargo, f.cargo) && Writable(VF.Cargo, f.pyCargo) && Writable(VF.Pyproject, f.pyproject)
    ensures Admitted(After(f, v, rest, n), w) <==> InFirstRun(f.cargo) && InFirstRun(f.pyCargo)
  {
    var g := After(f, v, rest, n);
    CargoReadsBack(f.cargo, v);
    CargoReadsBack(f.pyCargo, v);
    PyprojectReadsBack(f.pyproject, v);
    if Admitted(g, w) {
      var rv :| ReadsVersion(VF.Cargo, g.cargo, rv) && ReadsVersion(VF.Cargo, g.pyCargo, rv);
      RootReadsNewOrNothing(f.cargo, v, rv);
    }
  }
}
