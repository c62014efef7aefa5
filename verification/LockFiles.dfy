/**
  Bumping package versions in lock files (`bump_cargo_lock_named_packages`,
  `bump_uv_lock_rust_data_processing` in scripts/release.py), over lines classified once.
 */
module LockFiles {
  import opened DataModel
  import opened PythonText

  datatype Line =
    | PackageMark(text: string)
    | NameKey(text: string, name: string)
    | VersionKey(text: string)
    | Other(text: string)

  /**
    Which package blocks to bump: those whose current name is listed (Cargo.lock), or those in which
    one given name has been seen (uv.lock).
   */
  datatype Selector = Names(names: set<string>) | Seen(name: string)

  datatype BumpError = NoVersionLine

  function NewVersion(v: string): Line {
    VersionKey("version = \"" + v + "\"\n")
  }

  // ---------- what a bump is to do ----------

  /** Positions `j < i` of one package block: a mark before them and none between. */
  predicate SameBlock(lines: seq<Line>, j: nat, i: nat)
    requires i <= |lines|
  {
    j < i && (exists b :: 0 <= b < j && lines[b].PackageMark?)
    && forall k :: j <= k < i ==> !lines[k].PackageMark?
  }

  /** The last name given in the block before position `i`. */
  predicate NamedAt(lines: seq<Line>, j: nat, i: nat)
    requires i <= |lines|
  {
    SameBlock(lines, j, i) && lines[j].NameKey? && forall k :: j < k < i ==> !lines[k].NameKey?
  }

  /** The current block's name at position `i`: the last one given in it. */
  ghost predicate LastName(lines: seq<Line>, i: nat, name: string)
    requires i <= |lines|
  {
    exists j: nat :: NamedAt(lines, j, i) && lines[j].name == name
  }

  /** The name has been given in the current block before position `i`. */
  ghost predicate MetName(lines: seq<Line>, i: nat, name: string)
    requires i <= |lines|
  {
    exists j: nat :: SameBlock(lines, j, i) && lines[j].NameKey? && lines[j].name == name
  }

  /** At position `i`, is the current block one to bump? */
  ghost predicate Selected(sel: Selector, lines: seq<Line>, i: nat)
    requires i <= |lines|
  {
    match sel
    case Names(names) => exists n :: n in names && LastName(lines, i, n)
    case Seen(name) => MetName(lines, i, name)
  }

  ghost predicate Eligible(sel: Selector, lines: seq<Line>, i: nat)
    requires i < |lines|
  {
    lines[i].VersionKey? && Selected(sel, lines, i)
  }

  /** The line a bump replaces: the first eligible version line of its block. */
  ghost predicate Target(sel: Selector, lines: seq<Line>, i: nat)
    requires i < |lines|
  {
    Eligible(sel, lines, i) && forall j: nat :: SameBlock(lines, j, i) ==> !Eligible(sel, lines, j)
  }

  /** A block to bump ends at `e` without a version line to replace. */
  ghost predicate LacksVersion(sel: Selector, lines: seq<Line>, e: nat)
    requires e <= |lines|
  {
    && (e == |lines| || lines[e].PackageMark?)
    && Selected(sel, lines, e)
    && forall j: nat :: SameBlock(lines, j, e) ==> !Eligible(sel, lines, j)
  }

  /** The bumped file, position by position: targets replaced, every other line as it was. */
  ghost function Bumped(sel: Selector, lines: seq<Line>, v: string): (out: seq<Line>)
    ensures |out| == |lines|
    ensures forall i :: 0 <= i < |lines| ==> out[i] == if Target(sel, lines, i) then NewVersion(v) else lines[i]
  {
    seq(|lines|, i requires 0 <= i < |lines| => if Target(sel, lines, i) then NewVersion(v) else lines[i])
  }

  ghost predicate Bumps(sel: Selector, lines: seq<Line>) {
    forall e: nat :: e <= |lines| ==> !LacksVersion(sel, lines, e)
  }

  // ---------- laws ----------

  /** Same line kinds and names everywhere: all that blocks and targets depend on. */
  ghost predicate SameKinds(a: seq<Line>, b: seq<Line>) {
    |a| == |b| && forall i :: 0 <= i < |a| ==> a[i] == b[i] || (a[i].VersionKey? && b[i].VersionKey?)
  }

  lemma KindsDecideSelected(sel: Selector, a: seq<Line>, b: seq<Line>, i: nat)
    requires SameKinds(a, b) && i <= |a|
    ensures forall j: nat :: SameBlock(a, j, i) <==> SameBlock(b, j, i)
    ensures Selected(sel, a, i) <==> Selected(sel, b, i)
  {
    forall j: nat ensures SameBlock(a, j, i) <==> SameBlock(b, j, i) {}
    forall j: nat ensures NamedAt(a, j, i) <==> NamedAt(b, j, i) {}
    forall n ensures LastName(a, i, n) <==> LastName(b, i, n) {}
    forall n ensures MetName(a, i, n) <==> MetName(b, i, n) {}
  }

  lemma KindsDecideTargets(sel: Selector, a: seq<Line>, b: seq<Line>)
    requires SameKinds(a, b)
    ensures forall i: nat :: i < |a| ==> (Eligible(sel, a, i) <==> Eligible(sel, b, i))
    ensures forall i: nat :: i < |a| ==> (Target(sel, a, i) <==> Target(sel, b, i))
    ensures Bumps(sel, a) <==> Bumps(sel, b)
  {
    forall i: nat | i < |a| ensures Eligible(sel, a, i) <==> Eligible(sel, b, i) {
      KindsDecideSelected(sel, a, b, i);
    }
    forall i: nat | i < |a| ensures Target(sel, a, i) <==> Target(sel, b, i) {
      KindsDecideSelected(sel, a, b, i);
    }
    forall e: nat | e <= |a| ensures LacksVersion(sel, a, e) <==> LacksVersion(sel, b, e) {
      KindsDecideSelected(sel, a, b, e);
    }
  }

  /** A second bump overrides the first; with the same version it changes nothing; both succeed or fail alike. */
  lemma BumpTwice(sel: Selector, lines: seq<Line>, v: string, w: string)
    ensures Bumped(sel, Bumped(sel, lines, v), w) == Bumped(sel, lines, w)
    ensures Bumps(sel, Bumped(sel, lines, v)) <==> Bumps(sel, lines)
  {
    KindsDecideTargets(sel, lines, Bumped(sel, lines, v));
  }

  // ---------- reading the new version ----------

  /** A package block ends before position `e`. */
  predicate BlockEnds(lines: seq<Line>, e: nat)
    requires e <= |lines|
  {
    e == |lines| || lines[e].PackageMark?
  }

  /** Every selected block has a version line to replace, and the first one reads as `v`. */
  ghost predicate LocksAt(sel: Selector, lines: seq<Line>, v: string) {
    forall e: nat :: e <= |lines| && BlockEnds(lines, e) && Selected(sel, lines, e) ==>
      exists i: nat :: SameBlock(lines, i, e) && Target(sel, lines, i) && QuotedVersion(lines[i].text) == Some(v)
  }

  lemma SameBlockTransitive(lines: seq<Line>, j: nat, i: nat, e: nat)
    requires e <= |lines| && i < e && SameBlock(lines, i, e) && SameBlock(lines, j, i)
    ensures SameBlock(lines, j, e)
  {
  }

  lemma {:induction false} FirstEligible(sel: Selector, lines: seq<Line>, e: nat, i: nat) returns (k: nat)
    requires e <= |lines| && SameBlock(lines, i, e) && Eligible(sel, lines, i)
    ensures SameBlock(lines, k, e) && Target(sel, lines, k)
    decreases i
  {
    if Target(sel, lines, i) {
      k := i;
    } else {
      var j: nat :| SameBlock(lines, j, i) && Eligible(sel, lines, j);
      SameBlockTransitive(lines, j, i, e);
      k := FirstEligible(sel, lines, e, j);
    }
  }

  /** After a bump to a quote-free version every selected block's first version line reads as that version. */
  lemma BumpedLocksAt(sel: Selector, lines: seq<Line>, v: string)
    requires Bumps(sel, lines) && '"' !in v
    ensures LocksAt(sel, Bumped(sel, lines, v), v)
  {
    var out := Bumped(sel, lines, v);
    KindsDecideTargets(sel, lines, out);
    forall e: nat | e <= |out| && BlockEnds(out, e) && Selected(sel, out, e)
      ensures exists i: nat :: SameBlock(out, i, e) && Target(sel, out, i) && QuotedVersion(out[i].text) == Some(v)
    {
      KindsDecideSelected(sel, lines, out, e);
      assert !LacksVersion(sel, out, e);
      var i: nat :| SameBlock(out, i, e) && Eligible(sel, out, i);
      var k := FirstEligible(sel, out, e, i);
      assert Target(sel, lines, k) && out[k] == NewVersion(v);
      VersionLineReads(v, out[k].text);
    }
  }

  /** A bump changes version lines of selected blocks only, and no two lines of one block. */
  lemma OneLinePerBlock(sel: Selector, lines: seq<Line>, v: string, i: nat, k: nat)
    requires i < k < |lines| && Bumped(sel, lines, v)[i] != lines[i] && Bumped(sel, lines, v)[k] != lines[k]
    ensures lines[i].VersionKey? && lines[k].VersionKey? && Selected(sel, lines, i) && Selected(sel, lines, k)
    ensures exists b :: i < b < k && lines[b].PackageMark?
  {
    assert Target(sel, lines, i) && Target(sel, lines, k);
    assert !SameBlock(lines, i, k);
    SelectedIsInBlock(sel, lines, i);
  }

  lemma SelectedIsInBlock(sel: Selector, lines: seq<Line>, i: nat)
    requires i <= |lines| && Selected(sel, lines, i)
    ensures exists b :: 0 <= b < i && lines[b].PackageMark?
  {
    match sel {
      case Names(names) =>
        var n :| n in names && LastName(lines, i, n);
        var j: nat :| NamedAt(lines, j, i) && lines[j].name == n;
      case Seen(name) =>
        var j: nat :| SameBlock(lines, j, i) && lines[j].NameKey?;
    }
  }

  /** So bumps to different versions differ as soon as some block is selected. */
  lemma BumpsTellVersions(sel: Selector, lines: seq<Line>, v: string, w: string, e: nat)
    requires Bumps(sel, lines) && '"' !in v && '"' !in w && v != w
    requires e <= |lines| && BlockEnds(lines, e) && Selected(sel, lines, e)
    ensures Bumped(sel, lines, v) != Bumped(sel, lines, w)
  {
    assert !LacksVersion(sel, lines, e);
    var i: nat :| SameBlock(lines, i, e) && Eligible(sel, lines, i);
    var k := FirstEligible(sel, lines, e, i);
    VersionLineReads(v, NewVersion(v).text);
    VersionLineReads(w, NewVersion(w).text);
    assert Bumped(sel, lines, v)[k] == NewVersion(v) && Bumped(sel, lines, w)[k] == NewVersion(w);
  }

  // ---------- several bumps ----------

  /** A block has one name at a time. */
  lemma OneLastName(lines: seq<Line>, i: nat)
    requires i <= |lines|
    ensures forall m, n :: LastName(lines, i, m) && LastName(lines, i, n) ==> m == n
  {
  }

  /** Bumps of disjoint name sets commute, whatever the versions, and do not disturb each other's success. */
  lemma BumpsCommute(m: set<string>, n: set<string>, lines: seq<Line>, v: string, w: string)
    requires m !! n
    ensures Bumped(Names(n), Bumped(Names(m), lines, v), w) == Bumped(Names(m), Bumped(Names(n), lines, w), v)
    ensures Bumps(Names(n), Bumped(Names(m), lines, v)) <==> Bumps(Names(n), lines)
  {
    var a, b := Bumped(Names(m), lines, v), Bumped(Names(n), lines, w);
    KindsDecideTargets(Names(n), lines, a);
    KindsDecideTargets(Names(m), lines, b);
    forall i: nat | i < |lines| ensures !(Target(Names(m), lines, i) && Target(Names(n), lines, i)) {
      if Target(Names(m), lines, i) && Target(Names(n), lines, i) {
        OneLastName(lines, i);
      }
    }
  }

  /** Every package block gives at most one name. */
  ghost predicate OneNamePerBlock(lines: seq<Line>) {
    forall j: nat, i: nat :: i < |lines| && SameBlock(lines, j, i) && lines[j].NameKey? ==> !lines[i].NameKey?
  }

  /** On lock files that name each package once, the uv bump is the Cargo bump of that one name. */
  lemma UvBumpIsCargoBump(lines: seq<Line>, name: string, v: string)
    requires OneNamePerBlock(lines)
    ensures Bumped(Seen(name), lines, v) == Bumped(Names({name}), lines, v)
    ensures Bumps(Seen(name), lines) <==> Bumps(Names({name}), lines)
  {
    forall i: nat | i <= |lines| ensures Selected(Seen(name), lines, i) <==> Selected(Names({name}), lines, i) {}
    assert forall i: nat :: i < |lines| ==> (Eligible(Seen(name), lines, i) <==> Eligible(Names({name}), lines, i));
    assert forall i: nat :: i < |lines| ==> (Target(Seen(name), lines, i) <==> Target(Names({name}), lines, i));
    assert forall e: nat :: e <= |lines| ==>
      (LacksVersion(Seen(name), lines, e) <==> LacksVersion(Names({name}), lines, e));
  }

  // ---------- the scripts' own bookkeeping ----------

  /** The block around a position: none yet, or open with the names met in it so far. */
  datatype Block = NoBlock | Open(names: seq<string>)

  function BlockAt(lines: seq<Line>, i: nat): Block
    requires i <= |lines|
  {
    if i == 0 then NoBlock
    else
      var before := BlockAt(lines, i - 1);
      match lines[i - 1]
      case PackageMark(_) => Open([])
      case NameKey(_, name) => if before.Open? then Open(before.names + [name]) else before
      case _ => before
  }

  /** Does the selector bump the block, as far as it has been read? */
  predicate Picks(sel: Selector, block: Block) {
    && block.Open?
    && match sel
       case Names(names) => block.names != [] && block.names[|block.names| - 1] in names
       case Seen(name) => name in block.names
  }

  /** The `replaced` flag before line `i`. */
  predicate Replaced(sel: Selector, lines: seq<Line>, i: nat)
    requires i <= |lines|
    decreases i, 0
  {
    i > 0 && !lines[i - 1].PackageMark? && (Replaced(sel, lines, i - 1) || Hit(sel, lines, i - 1))
  }

  /** Is line `i` written as the new version? */
  predicate Hit(sel: Selector, lines: seq<Line>, i: nat)
    requires i < |lines|
    decreases i, 1
  {
    lines[i].VersionKey? && Picks(sel, BlockAt(lines, i)) && !Replaced(sel, lines, i)
  }

  /** The lines written so far. */
  function Written(sel: Selector, lines: seq<Line>, v: string, i: nat): (out: seq<Line>)
    requires i <= |lines|
    ensures |out| == i
  {
    if i == 0 then []
    else Written(sel, lines, v, i - 1) + [if Hit(sel, lines, i - 1) then NewVersion(v) else lines[i - 1]]
  }

  /** No block that ended before position `n` was missing its version line. */
  predicate FineTo(sel: Selector, lines: seq<Line>, n: nat)
    requires n <= |lines| + 1
  {
    n == 0 || (FineTo(sel, lines, n - 1) && !EndsBadly(sel, lines, n - 1))
  }

  predicate EndsBadly(sel: Selector, lines: seq<Line>, e: nat)
    requires e <= |lines|
  {
    (e == |lines| || lines[e].PackageMark?) && Picks(sel, BlockAt(lines, e)) && !Replaced(sel, lines, e)
  }

  // ---------- the bookkeeping is right ----------

  predicate MarkBefore(lines: seq<Line>, i: nat)
    requires i <= |lines|
  {
    exists b :: 0 <= b < i && lines[b].PackageMark?
  }

  lemma MarkForgets(lines: seq<Line>, i: nat, n: string)
    requires i < |lines| && lines[i].PackageMark?
    ensures !MetName(lines, i + 1, n) && !LastName(lines, i + 1, n)
  {
    var next := i + 1;
    forall j: nat ensures !SameBlock(lines, j, next) {}
  }

  lemma LineKeeps(lines: seq<Line>, i: nat, n: string)
    requires i < |lines| && !lines[i].PackageMark? && !lines[i].NameKey?
    ensures MetName(lines, i + 1, n) <==> MetName(lines, i, n)
    ensures LastName(lines, i + 1, n) <==> LastName(lines, i, n)
  {
    forall j: nat ensures SameBlock(lines, j, i + 1) <==> SameBlock(lines, j, i) || (j == i && MarkBefore(lines, i)) {}
    forall j: nat ensures NamedAt(lines, j, i + 1) <==> NamedAt(lines, j, i) {}
  }

  lemma NameReplaces(lines: seq<Line>, i: nat, n: string)
    requires i < |lines| && lines[i].NameKey?
    ensures MetName(lines, i + 1, n) <==> MetName(lines, i, n) || (MarkBefore(lines, i) && n == lines[i].name)
    ensures LastName(lines, i + 1, n) <==> MarkBefore(lines, i) && n == lines[i].name
  {
    forall j: nat ensures SameBlock(lines, j, i + 1) <==> SameBlock(lines, j, i) || (j == i && MarkBefore(lines, i)) {}
    var next := i + 1;
    forall j: nat ensures NamedAt(lines, j, next) <==> j == i && MarkBefore(lines, i) {}
    if MarkBefore(lines, i) {
      assert SameBlock(lines, i, i + 1);
    }
  }

  /** What the scripts keep of a block is what has been named in it, and last. */
  lemma {:induction false} BlockAtMeans(lines: seq<Line>, i: nat, n: string)
    requires i <= |lines|
    ensures var block := BlockAt(lines, i);
      && (block.Open? <==> MarkBefore(lines, i))
      && (MetName(lines, i, n) <==> block.Open? && n in block.names)
      && (LastName(lines, i, n) <==> block.Open? && block.names != [] && n == block.names[|block.names| - 1])
  {
    if i == 0 {
    } else {
      BlockAtMeans(lines, i - 1, n);
      match lines[i - 1] {
        case PackageMark(_) => MarkForgets(lines, i - 1, n);
        case NameKey(_, _) => NameReplaces(lines, i - 1, n);
        case _ => LineKeeps(lines, i - 1, n);
      }
    }
  }

  lemma PicksIffSelected(sel: Selector, lines: seq<Line>, i: nat)
    requires i <= |lines|
    ensures Picks(sel, BlockAt(lines, i)) <==> Selected(sel, lines, i)
  {
    match sel {
      case Names(names) =>
        forall n ensures var block := BlockAt(lines, i);
          LastName(lines, i, n) <==> block.Open? && block.names != [] && n == block.names[|block.names| - 1]
        {
          BlockAtMeans(lines, i, n);
        }
      case Seen(name) =>
        BlockAtMeans(lines, i, name);
    }
  }

  /** A version line to replace has gone by in the current block. */
  ghost predicate MetEligible(sel: Selector, lines: seq<Line>, i: nat)
    requires i <= |lines|
  {
    exists j: nat :: SameBlock(lines, j, i) && Eligible(sel, lines, j)
  }

  lemma MetEligibleStep(sel: Selector, lines: seq<Line>, i: nat)
    requires i < |lines|
    ensures MetEligible(sel, lines, i + 1) <==>
      !lines[i].PackageMark? && (MetEligible(sel, lines, i) || (MarkBefore(lines, i) && Eligible(sel, lines, i)))
  {
    forall j: nat
      ensures SameBlock(lines, j, i + 1) <==>
        !lines[i].PackageMark? && (SameBlock(lines, j, i) || (j == i && MarkBefore(lines, i)))
    {}
  }

  lemma {:induction false} ReplacedMeans(sel: Selector, lines: seq<Line>, i: nat)
    requires i <= |lines|
    ensures Replaced(sel, lines, i) <==> MetEligible(sel, lines, i)
  {
    if i > 0 {
      ReplacedMeans(sel, lines, i - 1);
      MetEligibleStep(sel, lines, i - 1);
      PicksIffSelected(sel, lines, i - 1);
      BlockAtMeans(lines, i - 1, "");
    }
  }

  lemma HitIffTarget(sel: Selector, lines: seq<Line>, i: nat)
    requires i < |lines|
    ensures Hit(sel, lines, i) <==> Target(sel, lines, i)
  {
    PicksIffSelected(sel, lines, i);
    ReplacedMeans(sel, lines, i);
  }

  lemma {:induction false} WrittenIsBumped(sel: Selector, lines: seq<Line>, v: string, i: nat)
    requires i <= |lines|
    ensures Written(sel, lines, v, i) == Bumped(sel, lines, v)[..i]
  {
    if i > 0 {
      WrittenIsBumped(sel, lines, v, i - 1);
      HitIffTarget(sel, lines, i - 1);
    }
  }

  lemma EndsBadlyMeans(sel: Selector, lines: seq<Line>, e: nat)
    requires e <= |lines|
    ensures EndsBadly(sel, lines, e) <==> LacksVersion(sel, lines, e)
  {
    PicksIffSelected(sel, lines, e);
    ReplacedMeans(sel, lines, e);
  }

  lemma {:induction false} FineToMeans(sel: Selector, lines: seq<Line>, n: nat)
    requires n <= |lines| + 1
    ensures FineTo(sel, lines, n) <==> forall e: nat :: e < n ==> !LacksVersion(sel, lines, e)
  {
    if n > 0 {
      FineToMeans(sel, lines, n - 1);
      EndsBadlyMeans(sel, lines, n - 1);
    }
  }

  /** The whole loop computes the positional bump and fails exactly when some block lacks a version line. */
  lemma BookkeepingIsRight(sel: Selector, lines: seq<Line>, v: string)
    ensures Written(sel, lines, v, |lines|) == Bumped(sel, lines, v)
    ensures FineTo(sel, lines, |lines| + 1) <==> Bumps(sel, lines)
  {
    WrittenIsBumped(sel, lines, v, |lines|);
    FineToMeans(sel, lines, |lines| + 1);
  }

  lemma {:induction false} OutsideIsFine(sel: Selector, lines: seq<Line>, i: nat)
    requires i <= |lines| && BlockAt(lines, i).NoBlock?
    ensures FineTo(sel, lines, i + 1)
  {
    if i > 0 {
      OutsideIsFine(sel, lines, i - 1);
    }
    assert FineTo(sel, lines, i) && !EndsBadly(sel, lines, i);
  }

  lemma NotFine(sel: Selector, lines: seq<Line>, e: nat)
    requires e <= |lines| && EndsBadly(sel, lines, e)
    ensures !Bumps(sel, lines)
  {
    EndsBadlyMeans(sel, lines, e);
  }

  // ---------- the scripts ----------

  /** `bump_cargo_lock_named_packages`. */
  method BumpCargoLock(lines: seq<Line>, names: set<string>, v: string) returns (r: Result<seq<Line>, BumpError>)
    ensures r.Ok? <==> Bumps(Names(names), lines)
    ensures r.Ok? ==> r.value == Bumped(Names(names), lines, v)
    ensures r.Ok? && '"' !in v ==> LocksAt(Names(names), r.value, v)
  {
    ghost var sel := Names(names);
    var out: seq<Line> := [];
    var i := 0;
    OutsideIsFine(sel, lines, 0);
    while i < |lines|
      invariant i <= |lines| && out == Written(sel, lines, v, i) && FineTo(sel, lines, i + 1)
      invariant i == |lines| || lines[i].PackageMark? || BlockAt(lines, i).NoBlock?
    {
      if !lines[i].PackageMark? {
        OutsideIsFine(sel, lines, i + 1);
        out, i := out + [lines[i]], i + 1;
      } else {
        out, i := out + [lines[i]], i + 1;
        var pkgName: Option<string>, replaced := None, false;
        while i < |lines| && !lines[i].PackageMark?
          invariant i <= |lines| && out == Written(sel, lines, v, i) && FineTo(sel, lines, i)
          invariant BlockAt(lines, i).Open? && replaced == Replaced(sel, lines, i)
          invariant var met := BlockAt(lines, i).names;
            pkgName == if met == [] then None else Some(met[|met| - 1])
          decreases |lines| - i
        {
          if lines[i].NameKey? {
            pkgName := Some(lines[i].name);
          }
          if pkgName.Some? && pkgName.value in names && !replaced && lines[i].VersionKey? {
            out, replaced := out + [NewVersion(v)], true;
          } else {
            out := out + [lines[i]];
          }
          i := i + 1;
        }
        if pkgName.Some? && pkgName.value in names && !replaced {
          NotFine(sel, lines, i);
          return Err(NoVersionLine);
        }
      }
    }
    BookkeepingIsRight(sel, lines, v);
    if '"' !in v {
      BumpedLocksAt(sel, lines, v);
    }
    r := Ok(out);
  }

  /** `bump_uv_lock_rust_data_processing`, for the package `name`. */
  method BumpUvLock(lines: seq<Line>, name: string, v: string) returns (r: Result<seq<Line>, BumpError>)
    ensures r.Ok? <==> Bumps(Seen(name), lines)
    ensures r.Ok? ==> r.value == Bumped(Seen(name), lines, v)
    ensures r.Ok? && '"' !in v ==> LocksAt(Seen(name), r.value, v)
  {
    ghost var sel := Seen(name);
    var out: seq<Line> := [];
    var i := 0;
    OutsideIsFine(sel, lines, 0);
    while i < |lines|
      invariant i <= |lines| && out == Written(sel, lines, v, i) && FineTo(sel, lines, i + 1)
      invariant i == |lines| || lines[i].PackageMark? || BlockAt(lines, i).NoBlock?
    {
      if !lines[i].PackageMark? {
        OutsideIsFine(sel, lines, i + 1);
        out, i := out + [lines[i]], i + 1;
      } else {
        out, i := out + [lines[i]], i + 1;
        var target, replaced := false, false;
        while i < |lines| && !lines[i].PackageMark?
          invariant i <= |lines| && out == Written(sel, lines, v, i) && FineTo(sel, lines, i)
          invariant BlockAt(lines, i).Open? && replaced == Replaced(sel, lines, i)
          invariant target == (name in BlockAt(lines, i).names)
          decreases |lines| - i
        {
          if lines[i].NameKey? && lines[i].name == name {
            target := true;
          }
          if target && !replaced && lines[i].VersionKey? {
            out, replaced := out + [NewVersion(v)], true;
          } else {
            out := out + [lines[i]];
          }
          i := i + 1;
        }
        if target && !replaced {
          NotFine(sel, lines, i);
          return Err(NoVersionLine);
        }
      }
    }
    BookkeepingIsRight(sel, lines, v);
    if '"' !in v {
      BumpedLocksAt(sel, lines, v);
    }
    r := Ok(out);
  }
}
