/**
  Reading and writing the version line of a manifest (`get_version_*`, `set_version_*` in
  scripts/release.py), over lines classified once.
 */
module VersionFiles {
  import opened DataModel
  import opened PythonText

  /**
    A manifest line with its raw text. A header's stripped text is bracketed; a ragged line only
    opens a bracket; a version key is what the writers replace, with the value the readers see in
    it (none, say, for an empty string).
   */
  datatype Line =
    | Header(text: string, name: string)
    | Ragged(text: string)
    | VersionKey(text: string, value: Option<string>)
    | Other(text: string)

  datatype Dialect = Cargo | Pyproject

  datatype VersionError = NoVersion

  const PACKAGE: string := "package"
  const PROJECT: string := "project"

  datatype Mark = Enters | Leaves | Neither

  /** What a line does to the "inside the section" flag of a writer. */
  function MarkOf(d: Dialect, line: Line): Mark {
    match line
    case Header(_, name) => if name == (if d.Cargo? then PACKAGE else PROJECT) then Enters else Leaves
    case Ragged(_) => if d.Cargo? then Neither else Leaves
    case _ => Neither
  }

  /** The flag before line `i`. */
  function Inside(d: Dialect, lines: seq<Line>, i: nat): bool
    requires i <= |lines|
  {
    if i == 0 then false
    else match MarkOf(d, lines[i - 1])
      case Enters => true
      case Leaves => false
      case Neither => Inside(d, lines, i - 1)
  }

  /**
    Line `h` is the section's header, and up to line `i` no other header follows, nor in a pyproject any
    other line that opens a bracket.
   */
  ghost predicate OpenedAt(d: Dialect, lines: seq<Line>, h: nat, i: nat)
    requires i <= |lines|
  {
    && h < i && lines[h].Header? && lines[h].name == (match d case Cargo => "package" case Pyproject => "project")
    && forall k :: h < k < i ==>
         (lines[k].Header? ==> lines[k].name == lines[h].name) && (lines[k].Ragged? ==> d.Cargo?)
  }

  /** A line is inside the section exactly when such a header precedes it. */
  lemma {:induction false} InsideIffOpened(d: Dialect, lines: seq<Line>, i: nat)
    requires i <= |lines|
    ensures Inside(d, lines, i) <==> exists h: nat :: OpenedAt(d, lines, h, i)
  {
    if i > 0 {
      var last := i - 1;
      InsideIffOpened(d, lines, last);
      match MarkOf(d, lines[last]) {
        case Enters =>
          assert OpenedAt(d, lines, last, i);
        case Leaves =>
          forall h: nat ensures !OpenedAt(d, lines, h, i) {
            assert h < last ==> lines[last].Header? || lines[last].Ragged?;
          }
        case Neither =>
          if h: nat :| OpenedAt(d, lines, h, last) {
            assert OpenedAt(d, lines, h, i);
          }
          forall h: nat | OpenedAt(d, lines, h, i) ensures OpenedAt(d, lines, h, last) {}
      }
    }
  }

  /** A version key inside the section: what a writer may replace. */
  predicate Candidate(d: Dialect, lines: seq<Line>, i: nat)
    requires i < |lines|
  {
    lines[i].VersionKey? && Inside(d, lines, i)
  }

  /** A candidate whose value a reader can see. */
  predicate Readable(d: Dialect, lines: seq<Line>, i: nat)
    requires i < |lines|
  {
    Candidate(d, lines, i) && lines[i].value.Some?
  }

  /** Some `[package]` header precedes line `i`, and after the first of them only more of the same. */
  predicate FirstRun(lines: seq<Line>, i: nat)
    requires i <= |lines|
  {
    forall h, k :: 0 <= h < k < i && MarkOf(Cargo, lines[h]) == Enters ==> MarkOf(Cargo, lines[k]) != Leaves
  }

  /** The line a writer replaces. */
  ghost predicate Replaces(d: Dialect, lines: seq<Line>, i: nat) {
    i < |lines| && Candidate(d, lines, i) && forall k: nat :: k < i ==> !Candidate(d, lines, k)
  }

  /** The line a reader reads: for Cargo manifests only inside the first run of `[package]`. */
  ghost predicate ReadsAt(d: Dialect, lines: seq<Line>, i: nat) {
    && i < |lines| && Readable(d, lines, i) && (d.Cargo? ==> FirstRun(lines, i))
    && forall k: nat :: k < i ==> !Readable(d, lines, k)
  }

  function NewVersion(v: string): Line {
    VersionKey("version = \"" + v + "\"\n", Some(v))
  }

  // ---------- readers ----------

  /** `get_version_cargo_package`: stops at the first other header after `[package]`. */
  method GetVersionCargoPackage(lines: seq<Line>) returns (r: Result<string, VersionError>)
    ensures r.Ok? <==> exists i: nat :: ReadsAt(Cargo, lines, i)
    ensures forall i: nat :: ReadsAt(Cargo, lines, i) ==> lines[i].value == Some(r.value)
  {
    var inPackage := false;
    for i := 0 to |lines|
      invariant inPackage == Inside(Cargo, lines, i)
      invariant FirstRun(lines, i)
      invariant !inPackage ==> forall h :: 0 <= h < i ==> MarkOf(Cargo, lines[h]) != Enters
      invariant forall k: nat :: k < i ==> !Readable(Cargo, lines, k)
    {
      match lines[i] {
        case Header(_, name) =>
          if name == PACKAGE {
            inPackage := true;
          } else if inPackage {
            BrokenRun(lines, i);
            return Err(NoVersion);
          }
        case VersionKey(_, value) =>
          if inPackage && value.Some? {
            assert ReadsAt(Cargo, lines, i);
            return Ok(value.value);
          }
        case _ =>
      }
    }
    r := Err(NoVersion);
  }

  /** Once another header has ended the first run, nothing further is read. */
  lemma BrokenRun(lines: seq<Line>, n: nat)
    requires n < |lines| && Inside(Cargo, lines, n) && MarkOf(Cargo, lines[n]) == Leaves
    requires forall k: nat :: k < n ==> !Readable(Cargo, lines, k)
    ensures forall i: nat :: !ReadsAt(Cargo, lines, i)
  {
    var h := Entered(Cargo, lines, n);
    forall i: nat ensures !ReadsAt(Cargo, lines, i) {
      if n < i < |lines| {
        assert 0 <= h < n < i && MarkOf(Cargo, lines[h]) == Enters && MarkOf(Cargo, lines[n]) == Leaves;
        assert !FirstRun(lines, i);
      } else if i == n {
        assert !lines[n].VersionKey?;
      } else if i < n {
        assert !Readable(Cargo, lines, i);
      }
    }
  }

  lemma {:induction false} Entered(d: Dialect, lines: seq<Line>, i: nat) returns (h: nat)
    requires i <= |lines| && Inside(d, lines, i)
    ensures h < i && MarkOf(d, lines[h]) == Enters
    ensures forall k :: h < k < i ==> MarkOf(d, lines[k]) == Neither
  {
    if MarkOf(d, lines[i - 1]) == Enters {
      h := i - 1;
    } else {
      h := Entered(d, lines, i - 1);
    }
  }

  /** `get_version_pyproject`: reads on after other sections. */
  method GetVersionPyproject(lines: seq<Line>) returns (r: Result<string, VersionError>)
    ensures r.Ok? <==> exists i: nat :: ReadsAt(Pyproject, lines, i)
    ensures forall i: nat :: ReadsAt(Pyproject, lines, i) ==> lines[i].value == Some(r.value)
  {
    var inProject := false;
    for i := 0 to |lines|
      invariant inProject == Inside(Pyproject, lines, i)
      invariant forall k: nat :: k < i ==> !Readable(Pyproject, lines, k)
    {
      match lines[i] {
        case Header(_, name) =>
          inProject := name == PROJECT;
        case Ragged(_) =>
          inProject := false;
        case VersionKey(_, value) =>
          if inProject && value.Some? {
            assert ReadsAt(Pyproject, lines, i);
            return Ok(value.value);
          }
        case Other(_) =>
      }
    }
    r := Err(NoVersion);
  }

  // ---------- writers ----------

  /** A writer's answer: exactly the first candidate line replaced, or an error if there is none. */
  ghost predicate Wrote(d: Dialect, lines: seq<Line>, v: string, r: Result<seq<Line>, VersionError>) {
    match r
    case Ok(out) => exists i: nat :: Replaces(d, lines, i) && out == lines[i := NewVersion(v)]
    case Err(_) => forall i: nat :: i < |lines| ==> !Candidate(d, lines, i)
  }

  /** `set_version_in_cargo_package`. */
  method SetVersionInCargoPackage(lines: seq<Line>, v: string) returns (r: Result<seq<Line>, VersionError>)
    ensures Wrote(Cargo, lines, v, r)
  {
    var out: seq<Line> := [];
    var inPackage, replaced := false, false;
    ghost var at := 0;
    for i := 0 to |lines|
      invariant inPackage == Inside(Cargo, lines, i)
      invariant !replaced ==> out == lines[..i] && forall k: nat :: k < i ==> !Candidate(Cargo, lines, k)
      invariant replaced ==> at < i && Replaces(Cargo, lines, at) && out == lines[..i][at := NewVersion(v)]
    {
      var line := lines[i];
      if line.Header? {
        inPackage := line.name == PACKAGE;
        out := out + [line];
      } else if inPackage && !replaced && line.VersionKey? {
        out := out + [NewVersion(v)];
        replaced, at := true, i;
      } else {
        out := out + [line];
      }
      assert lines[..i + 1] == lines[..i] + [line];
    }
    assert lines[..|lines|] == lines;
    r := if replaced then Ok(out) else Err(NoVersion);
  }

  /** `set_version_in_pyproject_project`. */
  method SetVersionInPyproject(lines: seq<Line>, v: string) returns (r: Result<seq<Line>, VersionError>)
    ensures Wrote(Pyproject, lines, v, r)
  {
    var out: seq<Line> := [];
    var inProject, replaced := false, false;
    ghost var at := 0;
    for i := 0 to |lines|
      invariant inProject == Inside(Pyproject, lines, i)
      invariant !replaced ==> out == lines[..i] && forall k: nat :: k < i ==> !Candidate(Pyproject, lines, k)
      invariant replaced ==> at < i && Replaces(Pyproject, lines, at) && out == lines[..i][at := NewVersion(v)]
    {
      var line := lines[i];
      if line.Header? && line.name == PROJECT {
        inProject := true;
        out := out + [line];
      } else {
        if line.Header? || line.Ragged? {
          inProject := false;
        }
        if inProject && !replaced && line.VersionKey? {
          out := out + [NewVersion(v)];
          replaced, at := true, i;
        } else {
          out := out + [line];
        }
      }
      assert lines[..i + 1] == lines[..i] + [line];
    }
    assert lines[..|lines|] == lines;
    r := if replaced then Ok(out) else Err(NoVersion);
  }

  // ---------- get/put laws ----------

  /** Replacing a version key by another moves no section boundary. */
  lemma {:induction false} SameInside(d: Dialect, lines: seq<Line>, i: nat, line: Line, k: nat)
    requires i < |lines| && lines[i].VersionKey? && line.VersionKey? && k <= |lines|
    ensures Inside(d, lines[i := line], k) == Inside(d, lines, k)
  {
    if k > 0 {
      SameInside(d, lines, i, line, k - 1);
    }
  }

  lemma SameCandidate(d: Dialect, lines: seq<Line>, i: nat, line: Line, k: nat)
    requires i < |lines| && lines[i].VersionKey? && line.VersionKey? && k < |lines|
    ensures Candidate(d, lines[i := line], k) <==> Candidate(d, lines, k)
  {
    SameInside(d, lines, i, line, k);
  }

  /** The replaced line is a candidate again, readable now, and nothing before it became one. */
  lemma ReplacedIsFirst(d: Dialect, lines: seq<Line>, i: nat, v: string)
    requires Replaces(d, lines, i)
    ensures var out := lines[i := NewVersion(v)];
      Replaces(d, out, i) && Readable(d, out, i) && forall k: nat :: k < i ==> !Readable(d, out, k)
  {
    var out := lines[i := NewVersion(v)];
    forall k: nat | k <= i ensures Candidate(d, out, k) <==> k == i {
      SameCandidate(d, lines, i, NewVersion(v), k);
    }
  }

  /** What a writer writes reads, as text, as the version given; so does the model's line of it. */
  lemma WrittenTextReads(d: Dialect, lines: seq<Line>, v: string, out: seq<Line>)
    requires Wrote(d, lines, v, Ok(out)) && '"' !in v
    ensures exists i: nat ::
      && Replaces(d, lines, i) && |out| == |lines| && out[i].VersionKey?
      && QuotedVersion(out[i].text) == out[i].value == Some(v)
      && forall k: nat :: k < |lines| && k != i ==> out[k] == lines[k]
  {
    var i: nat :| Replaces(d, lines, i) && out == lines[i := NewVersion(v)];
    VersionLineReads(v, out[i].text);
  }

  /** Reading after writing a `pyproject.toml` always gives the written version. */
  lemma PyprojectGetPut(lines: seq<Line>, i: nat, v: string)
    requires Replaces(Pyproject, lines, i)
    ensures ReadsAt(Pyproject, lines[i := NewVersion(v)], i)
  {
    ReplacedIsFirst(Pyproject, lines, i, v);
  }

  /**
    Reading after writing a `Cargo.toml` gives the written version exactly when the replaced line
    stands in the first run of `[package]`; past another header the writer still writes, but the
    reader has given up.
   */
  lemma CargoGetPut(lines: seq<Line>, i: nat, v: string)
    requires Replaces(Cargo, lines, i)
    ensures var out := lines[i := NewVersion(v)];
      if FirstRun(lines, i) then ReadsAt(Cargo, out, i) else forall k: nat :: !ReadsAt(Cargo, out, k)
  {
    var out := lines[i := NewVersion(v)];
    ReplacedIsFirst(Cargo, lines, i, v);
    assert forall k: nat :: k < i ==> MarkOf(Cargo, out[k]) == MarkOf(Cargo, lines[k]);
    if !FirstRun(lines, i) {
      var h, k :| 0 <= h < k < i && MarkOf(Cargo, lines[h]) == Enters && MarkOf(Cargo, lines[k]) == Leaves;
      forall j: nat ensures !ReadsAt(Cargo, out, j) {
        if i <= j < |out| {
          assert MarkOf(Cargo, out[h]) == Enters && MarkOf(Cargo, out[k]) == Leaves;
          assert !FirstRun(out, j);
        }
      }
    }
  }

  /** A manifest on which the writer succeeds and the reader then fails: the section comes in two parts. */
  lemma SplitPackageIsNotReadBack(v: string, w: string)
    ensures var lines := [Header("[package]\n", PACKAGE), Header("[lib]\n", "lib"),
                          Header("[package]\n", PACKAGE), NewVersion(w)];
      var out := lines[3 := NewVersion(v)];
      Replaces(Cargo, lines, 3) && !FirstRun(lines, 3) && forall k: nat :: !ReadsAt(Cargo, out, k)
  {
    var lines := [Header("[package]\n", PACKAGE), Header("[lib]\n", "lib"),
                  Header("[package]\n", PACKAGE), NewVersion(w)];
    assert PACKAGE[0] != "lib"[0];
    assert MarkOf(Cargo, lines[0]) == MarkOf(Cargo, lines[2]) == Enters && MarkOf(Cargo, lines[1]) == Leaves;
    assert Inside(Cargo, lines, 3);
    CargoGetPut(lines, 3, v);
  }

  /** With a single `[package]` header, as TOML demands, reading after writing always works. */
  lemma OnePackageHeader(lines: seq<Line>, i: nat)
    requires Replaces(Cargo, lines, i)
    requires forall h, k :: 0 <= h < k < |lines| && MarkOf(Cargo, lines[h]) == Enters ==>
      MarkOf(Cargo, lines[k]) != Enters
    ensures FirstRun(lines, i)
  {
    var p := Entered(Cargo, lines, i);
    assert forall h :: 0 <= h < i && MarkOf(Cargo, lines[h]) == Enters ==> h == p;
  }

  /** Writing twice is writing the last version, on the same line. */
  lemma PutPut(d: Dialect, lines: seq<Line>, i: nat, v: string, w: string)
    requires Replaces(d, lines, i)
    ensures Replaces(d, lines[i := NewVersion(v)], i)
    ensures lines[i := NewVersion(v)][i := NewVersion(w)] == lines[i := NewVersion(w)]
    ensures forall k: nat {:trigger Replaces(d, lines[i := NewVersion(v)], k)} ::
      Replaces(d, lines[i := NewVersion(v)], k) ==> k == i
  {
    ReplacedIsFirst(d, lines, i, v);
  }
}
