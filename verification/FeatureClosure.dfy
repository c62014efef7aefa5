/**
  The connector feature check: parse a manifest's `[features]` table, expand one feature by
  depth-first search over a shared `seen` set, and require every connector token in the result
  (scripts/check_jvm_full_features.py).
 */
module FeatureClosure {

  type Features = map<string, seq<string>>

  function Deps(features: Features, name: string): seq<string> {
    if name in features then features[name] else []
  }

  // ---------- reachability ----------

  ghost predicate IsPath(features: Features, path: seq<string>, a: string, b: string) {
    && path != [] && path[0] == a && path[|path| - 1] == b
    && forall i :: 0 <= i < |path| - 1 ==> path[i + 1] in Deps(features, path[i])
  }

  /** `b` is reached from `a` through zero or more dependency entries. */
  ghost predicate Reaches(features: Features, a: string, b: string) {
    exists path :: IsPath(features, path, a, b)
  }

  lemma ReachesSelf(features: Features, a: string)
    ensures Reaches(features, a, a)
  {
    assert IsPath(features, [a], a, a);
  }

  lemma ReachesThrough(features: Features, a: string, dep: string, b: string)
    requires dep in Deps(features, a) && Reaches(features, dep, b)
    ensures Reaches(features, a, b)
  {
    var path :| IsPath(features, path, dep, b);
    var longer := [a] + path;
    assert forall i :: 0 < i < |longer| ==> longer[i] == path[i - 1];
    assert IsPath(features, longer, a, b);
  }

  ghost predicate Closed(features: Features, s: set<string>) {
    forall t, d :: t in s && d in Deps(features, t) ==> d in s
  }

  lemma {:induction false} ClosedHoldsPaths(features: Features, s: set<string>, path: seq<string>, a: string, b: string)
    requires Closed(features, s) && a in s && IsPath(features, path, a, b)
    ensures b in s
  {
    if |path| > 1 {
      assert path[0 + 1] in Deps(features, path[0]);
      ClosedHoldsPaths(features, s, path[1..], path[1], b);
    }
  }

  /** Any closed set around `a` contains all that `a` reaches. */
  lemma ClosedHoldsReach(features: Features, s: set<string>, a: string)
    requires Closed(features, s) && a in s
    ensures forall b :: Reaches(features, a, b) ==> b in s
  {
    forall b | Reaches(features, a, b) ensures b in s {
      var path :| IsPath(features, path, a, b);
      ClosedHoldsPaths(features, s, path, a, b);
    }
  }

  // ---------- the search ----------

  /** All tokens that can ever be met from `start`. */
  ghost function Universe(features: Features, start: string): set<string> {
    features.Keys + {start} + set k, d | k in features && d in features[k] :: d
  }

  /** One search: the `seen` set every recursive call shares and updates. */
  class Search {
    const features: Features
    var seen: set<string>

    constructor (features: Features)
      ensures this.features == features && seen == {}
    {
      this.features, seen := features, {};
    }

    /**
      `_expand`. Tokens new to this call are exactly its own: each is reached from `name` and has
      all its dependencies seen. Callers still in progress keep their own dependencies open, so
      nothing is said about tokens that were seen before.
     */
    method Expand(name: string, ghost all: set<string>)
      requires name in all && seen <= all
      requires forall k :: k in features ==> forall d :: d in features[k] ==> d in all
      modifies this
      ensures old(seen) <= seen <= all && name in seen
      ensures forall t, d :: t in seen - old(seen) && d in Deps(features, t) ==> d in seen
      ensures forall t :: t in seen - old(seen) ==> Reaches(features, name, t)
      decreases all - seen
    {
      if name in seen {
        return;
      }
      seen := seen + {name};
      ReachesSelf(features, name);
      var deps := Deps(features, name);
      for i := 0 to |deps|
        invariant old(seen) + {name} <= seen <= all
        invariant forall d :: d in deps[..i] ==> d in seen
        invariant forall t, d :: t in seen - old(seen) - {name} && d in Deps(features, t) ==> d in seen
        invariant forall t :: t in seen - old(seen) ==> Reaches(features, name, t)
      {
        ghost var before := seen;
        Expand(deps[i], all);
        forall t | t in seen - before ensures Reaches(features, name, t) {
          ReachesThrough(features, name, deps[i], t);
        }
        assert deps[..i + 1] == deps[..i] + [deps[i]];
      }
      assert deps[..|deps|] == deps;
    }
  }

  /** The search from an empty `seen` set finds exactly the reachable tokens, cycles or not. */
  method ExpandFeature(features: Features, name: string) returns (seen: set<string>)
    ensures forall t :: t in seen <==> Reaches(features, name, t)
  {
    var search := new Search(features);
    search.Expand(name, Universe(features, name));
    seen := search.seen;
    assert Closed(features, seen);
    ClosedHoldsReach(features, seen, name);
  }

  // ---------- the check ----------

  datatype Verdict = NotDefined | Missing(tokens: seq<string>) | Covered

  ghost function Unreached(features: Features, name: string, required: seq<string>): seq<string> {
    if required == [] then []
    else
      (if Reaches(features, name, required[0]) then [] else [required[0]])
      + Unreached(features, name, required[1..])
  }

  lemma {:induction false} UnreachedExact(features: Features, name: string, required: seq<string>)
    ensures Unreached(features, name, required) == [] <==> forall t :: t in required ==> Reaches(features, name, t)
  {
    if required != [] {
      UnreachedExact(features, name, required[1..]);
      assert required[0] in required;
      assert forall t :: t in required <==> t == required[0] || t in required[1..];
    }
  }

  lemma {:induction false} UnreachedSnoc(features: Features, name: string, required: seq<string>, t: string)
    ensures Unreached(features, name, required + [t])
         == Unreached(features, name, required) + if Reaches(features, name, t) then [] else [t]
  {
    if required == [] {
      assert ([] + [t])[1..] == [];
    } else {
      assert (required + [t])[1..] == required[1..] + [t];
      UnreachedSnoc(features, name, required[1..], t);
    }
  }

  /** `_check_feature_set`: passes exactly when every required token is reachable, else lists the others in order. */
  method CheckFeatureSet(features: Features, name: string, required: seq<string>) returns (r: Verdict)
    ensures r.NotDefined? <==> name !in features
    ensures r.Covered? <==> Covers(features, name, required)
    ensures r.Missing? ==> r.tokens == Unreached(features, name, required)
  {
    if name !in features {
      return NotDefined;
    }
    var expanded := ExpandFeature(features, name);
    var missing: seq<string> := [];
    for i := 0 to |required|
      invariant missing == Unreached(features, name, required[..i])
    {
      assert required[..i + 1] == required[..i] + [required[i]];
      UnreachedSnoc(features, name, required[..i], required[i]);
      if required[i] !in expanded {
        missing := missing + [required[i]];
      }
    }
    assert required[..|required|] == required;
    UnreachedExact(features, name, required);
    r := if missing == [] then Covered else Missing(missing);
  }

  /** What the check is meant to decide. */
  ghost predicate Covers(features: Features, name: string, required: seq<string>) {
    name in features && forall t :: t in required ==> Reaches(features, name, t)
  }

  // ---------- the manifest's line machine ----------

  /**
    A manifest line, classified once: what it is, which quoted items it holds, and whether it ends in a
    bracket. An opening line is one whose name the script's `\w+` matches; all else inside the table,
    comments included, is plain.
   */
  datatype Line =
    | FeaturesHeader
    | OtherHeader
    | Opening(name: string, items: seq<string>, closes: bool)
    | Plain(items: seq<string>, closes: bool)

  datatype Current = Idle | Inside(name: string)

  /** The machine's state: whether `[features]` was met, the open entry, and the table so far. */
  datatype Parser = Parser(inFeatures: bool, current: Current, features: Features, stopped: bool)

  const FRESH := Parser(false, Idle, map[], false)

  function Read(p: Parser, line: Line): Parser {
    if p.stopped then p
    else if line.FeaturesHeader? then p.(inFeatures := true)
    else if p.inFeatures && line.OtherHeader? then p.(stopped := true)
    else if !p.inFeatures then p
    else
      match line
      case Opening(name, items, closes) =>
        p.(features := p.features[name := items], current := if closes then Idle else Inside(name))
      case Plain(items, closes) =>
        (match p.current
         case Idle => p
         case Inside(name) =>
           p.(features := p.features[name := Deps(p.features, name) + items],
              current := if closes then Idle else p.current))
      case _ => p
  }

  function ReadAll(p: Parser, lines: seq<Line>): Parser
    decreases |lines|
  {
    if lines == [] then p else ReadAll(Read(p, lines[0]), lines[1..])
  }

  lemma {:induction false} ReadAppend(p: Parser, a: seq<Line>, b: seq<Line>)
    ensures ReadAll(p, a + b) == ReadAll(ReadAll(p, a), b)
    decreases |a|
  {
    if a == [] {
      assert a + b == b;
    } else {
      assert (a + b)[1..] == a[1..] + b;
      ReadAppend(Read(p, a[0]), a[1..], b);
    }
  }

  lemma {:induction false} StoppedStays(p: Parser, lines: seq<Line>)
    requires p.stopped
    ensures ReadAll(p, lines) == p
    decreases |lines|
  {
    if lines != [] {
      StoppedStays(p, lines[1..]);
    }
  }

  /** `_parse_features`. */
  method ParseFeatures(lines: seq<Line>) returns (features: Features)
    ensures features == ReadAll(FRESH, lines).features
  {
    var inFeatures, current := false, Idle;
    features := map[];
    assert lines[0..] == lines;
    for i := 0 to |lines|
      invariant ReadAll(Parser(inFeatures, current, features, false), lines[i..]) == ReadAll(FRESH, lines)
    {
      assert lines[i..][1..] == lines[i + 1..];
      var line := lines[i];
      if line.FeaturesHeader? {
        inFeatures := true;
      } else if inFeatures && line.OtherHeader? {
        StoppedStays(Parser(inFeatures, current, features, true), lines[i + 1..]);
        break;
      } else if inFeatures {
        match line {
          case Opening(name, items, closes) =>
            current, features := if closes then Idle else Inside(name), features[name := items];
          case Plain(items, closes) =>
            if current.Inside? {
              features := features[current.name := Deps(features, current.name) + items];
              if closes {
                current := Idle;
              }
            }
        }
      }
    }
  }

  /** `_check_feature_set` from the manifest's lines on. */
  method CheckManifest(lines: seq<Line>, name: string, required: seq<string>) returns (r: Verdict)
    ensures r.Covered? <==> Covers(ReadAll(FRESH, lines).features, name, required)
    ensures r.NotDefined? <==> name !in ReadAll(FRESH, lines).features
    ensures r.Missing? ==> r.tokens == Unreached(ReadAll(FRESH, lines).features, name, required)
  {
    var features := ParseFeatures(lines);
    r := CheckFeatureSet(features, name, required);
  }

  // ---------- reading back a rendered table ----------

  /** The characters of a bare key that the pattern `\w+` matches: all of them but the hyphen. */
  predicate WordChar(c: char) {
    'a' <= c <= 'z' || 'A' <= c <= 'Z' || '0' <= c <= '9' || c == '_'
  }

  predicate WordName(name: string) {
    name != "" && forall i :: 0 <= i < |name| ==> WordChar(name[i])
  }

  /** The code points of a bare TOML key: ASCII letters and digits, underscore and hyphen. */
  predicate BareKeyCode(n: int) {
    0x41 <= n <= 0x5A || 0x61 <= n <= 0x7A || 0x30 <= n <= 0x39 || n == 0x5F || n == 0x2D
  }

  /** A bare key is matched exactly when it has no hyphen; so `integration_full` is. */
  lemma MatchedIffHyphenless(name: string)
    requires name != "" && forall i :: 0 <= i < |name| ==> BareKeyCode(name[i] as int)
    ensures WordName(name) <==> '-' !in name
    ensures WordName("integration_full")
  {
    forall i | 0 <= i < |name| ensures WordChar(name[i]) <==> name[i] != '-' {
      assert BareKeyCode(name[i] as int);
    }
    var full := "integration_full";
    forall i | 0 <= i < |full| ensures WordChar(full[i]) {}
  }

  /** A comment or blank line: the quoted texts in it, and whether it ends in a bracket. */
  datatype Remark = Remark(items: seq<string>, closes: bool)

  /**
    A table entry as written: its items spread over one or more lines, then remarks. It is sealed
    unless a comment follows its closing bracket on the same line.
   */
  datatype Entry = Entry(name: string, first: seq<string>, more: seq<seq<string>>, sealed: bool, remarks: seq<Remark>)

  function Continuation(more: seq<seq<string>>, sealed: bool): seq<Line> {
    if more == [] then []
    else [Plain(more[0], |more| == 1 && sealed)] + Continuation(more[1..], sealed)
  }

  function FirstLine(e: Entry): Line {
    var closes := e.more == [] && e.sealed;
    if WordName(e.name) then Opening(e.name, e.first, closes) else Plain(e.first, closes)
  }

  function RenderRemarks(remarks: seq<Remark>): (lines: seq<Line>)
    ensures |lines| == |remarks| && forall i :: 0 <= i < |lines| ==> lines[i].Plain?
  {
    seq(|remarks|, i requires 0 <= i < |remarks| => Plain(remarks[i].items, remarks[i].closes))
  }

  function RenderEntry(e: Entry): seq<Line> {
    [FirstLine(e)] + Continuation(e.more, e.sealed) + RenderRemarks(e.remarks)
  }

  function RenderTable(entries: seq<Entry>): seq<Line> {
    if entries == [] then [] else RenderEntry(entries[0]) + RenderTable(entries[1..])
  }

  function Flatten(more: seq<seq<string>>): seq<string> {
    if more == [] then [] else more[0] + Flatten(more[1..])
  }

  function ItemsOf(e: Entry): seq<string> {
    e.first + Flatten(e.more)
  }

  /** What the entries say: a later entry of the same name replaces an earlier one. */
  function TableOf(start: Features, entries: seq<Entry>): Features
    decreases |entries|
  {
    if entries == [] then start else TableOf(start[entries[0].name := ItemsOf(entries[0])], entries[1..])
  }

  /** The manifest around a table. */
  function RenderManifest(before: seq<Line>, entries: seq<Entry>, after: seq<Line>): seq<Line> {
    before + [FeaturesHeader] + RenderTable(entries) + after
  }

  ghost predicate Surrounds(before: seq<Line>, after: seq<Line>) {
    FeaturesHeader !in before && (after == [] || after[0] == OtherHeader)
  }

  /** The table that the script reads off a manifest. */
  function TableRead(before: seq<Line>, entries: seq<Entry>, after: seq<Line>): Features {
    ReadAll(FRESH, RenderManifest(before, entries, after)).features
  }

  lemma {:induction false} PreambleIgnored(lines: seq<Line>)
    requires FeaturesHeader !in lines
    ensures ReadAll(FRESH, lines) == FRESH
    decreases |lines|
  {
    if lines != [] {
      assert lines[0] != FeaturesHeader;
      PreambleIgnored(lines[1..]);
    }
  }

  const BEGUN := Parser(true, Idle, map[], false)

  /** A line inside the table: an opening one with a word name, or a plain one. */
  predicate TableLine(line: Line) {
    line.Plain? || (line.Opening? && WordName(line.name))
  }

  /** Only word names are ever entered into the table. */
  ghost predicate WordKeyed(p: Parser) {
    && p.inFeatures && !p.stopped
    && (forall k :: k in p.features ==> WordName(k))
    && (p.current.Inside? ==> WordName(p.current.name))
  }

  lemma {:induction false} TableLinesRead(p: Parser, lines: seq<Line>)
    requires WordKeyed(p) && forall i :: 0 <= i < |lines| ==> TableLine(lines[i])
    ensures WordKeyed(ReadAll(p, lines))
    decreases |lines|
  {
    if lines != [] {
      assert TableLine(lines[0]);
      TableLinesRead(Read(p, lines[0]), lines[1..]);
    }
  }

  ghost predicate AllPlain(lines: seq<Line>) {
    forall i :: 0 <= i < |lines| ==> lines[i].Plain?
  }

  lemma {:induction false} ContinuationIsPlain(more: seq<seq<string>>, sealed: bool)
    ensures AllPlain(Continuation(more, sealed))
  {
    if more != [] {
      ContinuationIsPlain(more[1..], sealed);
    }
  }

  lemma {:induction false} RenderedAreTableLines(entries: seq<Entry>)
    ensures forall i :: 0 <= i < |RenderTable(entries)| ==> TableLine(RenderTable(entries)[i])
  {
    if entries != [] {
      ContinuationIsPlain(entries[0].more, entries[0].sealed);
      RenderedAreTableLines(entries[1..]);
      assert forall i :: 0 <= i < |RenderEntry(entries[0])| ==> TableLine(RenderEntry(entries[0])[i]);
    }
  }

  /** What surrounds the table does not matter, and only word names are read. */
  lemma ReadsTableOnly(before: seq<Line>, entries: seq<Entry>, after: seq<Line>)
    requires Surrounds(before, after)
    ensures TableRead(before, entries, after) == ReadAll(BEGUN, RenderTable(entries)).features
    ensures forall k :: k in TableRead(before, entries, after) ==> WordName(k)
  {
    var table := ReadAll(BEGUN, RenderTable(entries));
    RenderedAreTableLines(entries);
    TableLinesRead(BEGUN, RenderTable(entries));
    PreambleIgnored(before);
    ReadAppend(FRESH, before + [FeaturesHeader] + RenderTable(entries), after);
    ReadAppend(FRESH, before + [FeaturesHeader], RenderTable(entries));
    ReadAppend(FRESH, before, [FeaturesHeader]);
    assert ReadAll(FRESH, [FeaturesHeader]) == BEGUN;
    if after != [] {
      StoppedStays(table.(stopped := true), after[1..]);
    }
  }

  // ---------- sealed entries: exactly the word-named ones are read ----------

  ghost predicate Sealed(entries: seq<Entry>) {
    forall i :: 0 <= i < |entries| ==> entries[i].sealed
  }

  ghost predicate WordNamed(entries: seq<Entry>) {
    forall i :: 0 <= i < |entries| ==> WordName(entries[i].name)
  }

  /** The part of a table under names the script can read. */
  function WordsOnly(table: Features): Features {
    map k | k in table && WordName(k) :: table[k]
  }

  lemma {:induction false} PlainIgnoredWhenIdle(p: Parser, lines: seq<Line>)
    requires AllPlain(lines) && p.current.Idle?
    ensures ReadAll(p, lines) == p
    decreases |lines|
  {
    if lines != [] {
      PlainIgnoredWhenIdle(p, lines[1..]);
    }
  }

  /** The lines of an open entry: its items are collected, and its last line closes it if it is sealed. */
  lemma {:induction false} ContinuationRead(features: Features, name: string, more: seq<seq<string>>, sealed: bool)
    requires more != [] && name in features
    ensures ReadAll(Parser(true, Inside(name), features, false), Continuation(more, sealed))
         == Parser(true, if sealed then Idle else Inside(name), features[name := features[name] + Flatten(more)], false)
    decreases |more|
  {
    var p := Parser(true, Inside(name), features, false);
    var next := features[name := features[name] + more[0]];
    var lines := Continuation(more, sealed);
    assert lines[0] == Plain(more[0], |more| == 1 && sealed) && lines[1..] == Continuation(more[1..], sealed);
    if |more| == 1 {
      assert Flatten(more) == more[0] + Flatten(more[1..]) == more[0];
    } else {
      ContinuationRead(next, name, more[1..], sealed);
      assert next[name := next[name] + Flatten(more[1..])] == features[name := features[name] + Flatten(more)] by {
        assert features[name] + more[0] + Flatten(more[1..]) == features[name] + Flatten(more);
      }
    }
  }

  /** A word-named entry opens whatever was open before. */
  lemma OwnLinesRead(current: Current, features: Features, e: Entry)
    requires WordName(e.name)
    ensures ReadAll(Parser(true, current, features, false), [FirstLine(e)] + Continuation(e.more, e.sealed))
         == Parser(true, if e.sealed then Idle else Inside(e.name), features[e.name := ItemsOf(e)], false)
  {
    var p := Parser(true, current, features, false);
    var closes := e.more == [] && e.sealed;
    var begun := Parser(true, if closes then Idle else Inside(e.name), features[e.name := e.first], false);
    ReadAppend(p, [FirstLine(e)], Continuation(e.more, e.sealed));
    assert ReadAll(p, [FirstLine(e)]) == begun;
    if e.more == [] {
      assert ItemsOf(e) == e.first;
    } else {
      ContinuationRead(begun.features, e.name, e.more, e.sealed);
      assert begun.features[e.name := begun.features[e.name] + Flatten(e.more)] == features[e.name := ItemsOf(e)];
    }
  }

  lemma SealedEntryRead(features: Features, e: Entry)
    requires e.sealed
    ensures ReadAll(Parser(true, Idle, features, false), RenderEntry(e))
         == Parser(true, Idle, if WordName(e.name) then features[e.name := ItemsOf(e)] else features, false)
  {
    var p := Parser(true, Idle, features, false);
    var own := [FirstLine(e)] + Continuation(e.more, e.sealed);
    ReadAppend(p, own, RenderRemarks(e.remarks));
    if WordName(e.name) {
      OwnLinesRead(Idle, features, e);
    } else {
      ContinuationIsPlain(e.more, e.sealed);
      PlainIgnoredWhenIdle(p, own);
    }
    PlainIgnoredWhenIdle(ReadAll(p, own), RenderRemarks(e.remarks));
  }

  lemma WordsOnlyInsert(table: Features, name: string, items: seq<string>)
    ensures WordsOnly(table[name := items])
         == if WordName(name) then WordsOnly(table)[name := items] else WordsOnly(table)
  {
  }

  lemma {:induction false} SealedTableRead(table: Features, entries: seq<Entry>)
    requires Sealed(entries)
    ensures ReadAll(Parser(true, Idle, WordsOnly(table), false), RenderTable(entries))
         == Parser(true, Idle, WordsOnly(TableOf(table, entries)), false)
    decreases |entries|
  {
    if entries != [] {
      var next := table[entries[0].name := ItemsOf(entries[0])];
      SealedEntryRead(WordsOnly(table), entries[0]);
      ReadAppend(Parser(true, Idle, WordsOnly(table), false), RenderEntry(entries[0]), RenderTable(entries[1..]));
      WordsOnlyInsert(table, entries[0].name, ItemsOf(entries[0]));
      SealedTableRead(next, entries[1..]);
    }
  }

  /**
    Reading a manifest of sealed entries gives exactly the part of its table that stands under word
    names, whatever surrounds it and however items are spread over lines: an entry with a hyphen in its
    name is dropped.
   */
  lemma SealedManifestRead(before: seq<Line>, entries: seq<Entry>, after: seq<Line>)
    requires Surrounds(before, after) && Sealed(entries)
    ensures TableRead(before, entries, after) == WordsOnly(TableOf(map[], entries))
  {
    assert WordsOnly(map[]) == map[];
    SealedTableRead(map[], entries);
    ReadsTableOnly(before, entries, after);
  }

  lemma {:induction false} TableKeys(start: Features, entries: seq<Entry>, k: string)
    ensures k in TableOf(start, entries) <==> k in start || exists i :: 0 <= i < |entries| && entries[i].name == k
    decreases |entries|
  {
    if entries != [] {
      TableKeys(start[entries[0].name := ItemsOf(entries[0])], entries[1..], k);
      assert forall i :: 0 < i < |entries| ==> entries[i] == entries[1..][i - 1];
    }
  }

  // ---------- open entries take in what follows ----------

  /** The quoted texts that an open entry takes from the remarks after it, up to a closing bracket. */
  function Absorbed(remarks: seq<Remark>): seq<string> {
    if remarks == [] then []
    else remarks[0].items + if remarks[0].closes then [] else Absorbed(remarks[1..])
  }

  function StillOpen(remarks: seq<Remark>): bool {
    remarks == [] || (!remarks[0].closes && StillOpen(remarks[1..]))
  }

  /** What the script takes an entry to hold. */
  function Heard(e: Entry): seq<string> {
    ItemsOf(e) + if e.sealed then [] else Absorbed(e.remarks)
  }

  /** The entries as the script takes them. */
  function AsHeard(entries: seq<Entry>): (heard: seq<Entry>)
    ensures |heard| == |entries|
    ensures forall i :: 0 <= i < |entries| ==>
      heard[i].name == entries[i].name && ItemsOf(heard[i]) == Heard(entries[i])
  {
    seq(|entries|, i requires 0 <= i < |entries| =>
      assert Heard(entries[i]) + Flatten([]) == Heard(entries[i]);
      entries[i].(first := Heard(entries[i]), more := []))
  }

  lemma {:induction false} RemarksRead(features: Features, name: string, remarks: seq<Remark>)
    requires name in features
    ensures ReadAll(Parser(true, Inside(name), features, false), RenderRemarks(remarks))
         == Parser(true, if StillOpen(remarks) then Inside(name) else Idle,
                   features[name := features[name] + Absorbed(remarks)], false)
    decreases |remarks|
  {
    var lines := RenderRemarks(remarks);
    if remarks == [] {
      assert features[name] + Absorbed(remarks) == features[name];
    } else {
      var next := features[name := features[name] + remarks[0].items];
      assert lines[1..] == RenderRemarks(remarks[1..]);
      if remarks[0].closes {
        PlainIgnoredWhenIdle(Parser(true, Idle, next, false), lines[1..]);
        assert Absorbed(remarks) == remarks[0].items;
      } else {
        RemarksRead(next, name, remarks[1..]);
        assert Absorbed(remarks) == remarks[0].items + Absorbed(remarks[1..]);
        assert features[name] + remarks[0].items + Absorbed(remarks[1..]) == features[name] + Absorbed(remarks);
      }
    }
  }

  lemma WordEntryRead(current: Current, features: Features, e: Entry) returns (left: Current)
    requires WordName(e.name)
    ensures ReadAll(Parser(true, current, features, false), RenderEntry(e))
         == Parser(true, left, features[e.name := Heard(e)], false)
  {
    left := if e.sealed || !StillOpen(e.remarks) then Idle else Inside(e.name);
    var p := Parser(true, current, features, false);
    var own := [FirstLine(e)] + Continuation(e.more, e.sealed);
    var done := features[e.name := ItemsOf(e)];
    ReadAppend(p, own, RenderRemarks(e.remarks));
    OwnLinesRead(current, features, e);
    if e.sealed {
      PlainIgnoredWhenIdle(ReadAll(p, own), RenderRemarks(e.remarks));
      assert Heard(e) == ItemsOf(e);
    } else {
      RemarksRead(done, e.name, e.remarks);
      assert done[e.name := done[e.name] + Absorbed(e.remarks)] == features[e.name := Heard(e)];
    }
  }

  lemma {:induction false} WordTableRead(current: Current, features: Features, entries: seq<Entry>)
    returns (left: Current)
    requires WordNamed(entries)
    ensures ReadAll(Parser(true, current, features, false), RenderTable(entries))
         == Parser(true, left, TableOf(features, AsHeard(entries)), false)
    decreases |entries|
  {
    left := current;
    if entries != [] {
      var next := features[entries[0].name := Heard(entries[0])];
      left := WordEntryRead(current, features, entries[0]);
      ReadAppend(Parser(true, current, features, false), RenderEntry(entries[0]), RenderTable(entries[1..]));
      assert AsHeard(entries)[1..] == AsHeard(entries[1..]);
      left := WordTableRead(left, next, entries[1..]);
    }
  }

  /** TOML forbids a key to be given twice. */
  ghost predicate DistinctEntries(entries: seq<Entry>) {
    forall i, j :: 0 <= i < j < |entries| ==> entries[i].name != entries[j].name
  }

  lemma {:induction false} TableLeaves(start: Features, entries: seq<Entry>, k: string)
    requires k in start && forall i :: 0 <= i < |entries| ==> entries[i].name != k
    ensures k in TableOf(start, entries) && TableOf(start, entries)[k] == start[k]
    decreases |entries|
  {
    if entries != [] {
      TableLeaves(start[entries[0].name := ItemsOf(entries[0])], entries[1..], k);
    }
  }

  lemma {:induction false} TableAt(start: Features, entries: seq<Entry>, i: nat)
    requires DistinctEntries(entries) && i < |entries|
    ensures entries[i].name in TableOf(start, entries)
    ensures TableOf(start, entries)[entries[i].name] == ItemsOf(entries[i])
    decreases |entries|
  {
    var next := start[entries[0].name := ItemsOf(entries[0])];
    if i == 0 {
      TableLeaves(next, entries[1..], entries[0].name);
    } else {
      TableAt(next, entries[1..], i - 1);
    }
  }

  lemma {:induction false} SameItemsSameTable(start: Features, a: seq<Entry>, b: seq<Entry>)
    requires |a| == |b|
    requires forall i :: 0 <= i < |a| ==> a[i].name == b[i].name && ItemsOf(a[i]) == ItemsOf(b[i])
    ensures TableOf(start, a) == TableOf(start, b)
    decreases |a|
  {
    if a != [] {
      SameItemsSameTable(start[a[0].name := ItemsOf(a[0])], a[1..], b[1..]);
    }
  }

  /** The entry is closed on its last line, or nothing quoted follows it before the next bracket or entry. */
  ghost predicate Closes(e: Entry) {
    e.sealed || Absorbed(e.remarks) == []
  }

  lemma OpenEntryDiffers(entries: seq<Entry>, i: nat)
    requires DistinctEntries(entries) && i < |entries| && !Closes(entries[i])
    ensures TableOf(map[], AsHeard(entries)) != TableOf(map[], entries)
  {
    TableAt(map[], AsHeard(entries), i);
    TableAt(map[], entries, i);
    assert |Heard(entries[i])| > |ItemsOf(entries[i])|;
  }

  lemma WordNamedLosslessIff(entries: seq<Entry>)
    requires DistinctEntries(entries)
    ensures TableOf(map[], AsHeard(entries)) == TableOf(map[], entries) <==>
      forall i :: 0 <= i < |entries| ==> Closes(entries[i])
  {
    var heard := AsHeard(entries);
    if forall i :: 0 <= i < |entries| ==> Closes(entries[i]) {
      SameItemsSameTable(map[], heard, entries);
    } else {
      var i :| 0 <= i < |entries| && !Closes(entries[i]);
      OpenEntryDiffers(entries, i);
    }
  }

  /**
    The script reads a manifest's table as it was written if and only if every entry has a word name and
    none is left open by a comment behind its bracket with quoted texts to follow.
   */
  lemma ManifestRoundTripIff(before: seq<Line>, entries: seq<Entry>, after: seq<Line>)
    requires Surrounds(before, after) && DistinctEntries(entries)
    ensures TableRead(before, entries, after) == TableOf(map[], entries) <==>
      WordNamed(entries) && forall i :: 0 <= i < |entries| ==> Closes(entries[i])
  {
    ReadsTableOnly(before, entries, after);
    if WordNamed(entries) {
      var left := WordTableRead(Idle, map[], entries);
      WordNamedLosslessIff(entries);
    } else {
      var i :| 0 <= i < |entries| && !WordName(entries[i].name);
      TableAt(map[], entries, i);
    }
  }

  // ---------- any manifest ----------

  function MoreRemarks(more: seq<seq<string>>, sealed: bool): seq<Remark> {
    if more == [] then [] else [Remark(more[0], |more| == 1 && sealed)] + MoreRemarks(more[1..], sealed)
  }

  /** What the script sees of an entry whose name it does not match: lines like any remarks. */
  function AsRemarks(e: Entry): seq<Remark> {
    [Remark(e.first, e.more == [] && e.sealed)] + MoreRemarks(e.more, e.sealed) + e.remarks
  }

  /** The lines before the next entry that the script matches, as it sees them. */
  function Following(entries: seq<Entry>): seq<Remark> {
    if entries == [] || WordName(entries[0].name) then [] else AsRemarks(entries[0]) + Following(entries[1..])
  }

  /** The entries that the script matches, each with all that stands before the next one. */
  function Merged(entries: seq<Entry>): (merged: seq<Entry>)
    ensures forall i :: 0 <= i < |merged| ==> WordName(merged[i].name)
  {
    if entries == [] then []
    else if !WordName(entries[0].name) then Merged(entries[1..])
    else [entries[0].(remarks := entries[0].remarks + Following(entries[1..]))] + Merged(entries[1..])
  }

  lemma RemarksAppend(a: seq<Remark>, b: seq<Remark>)
    ensures RenderRemarks(a + b) == RenderRemarks(a) + RenderRemarks(b)
  {
  }

  lemma {:induction false} MoreAsRemarks(more: seq<seq<string>>, sealed: bool)
    ensures RenderRemarks(MoreRemarks(more, sealed)) == Continuation(more, sealed)
  {
    if more != [] {
      MoreAsRemarks(more[1..], sealed);
      RemarksAppend([Remark(more[0], |more| == 1 && sealed)], MoreRemarks(more[1..], sealed));
    }
  }

  lemma DroppedAsRemarks(e: Entry)
    requires !WordName(e.name)
    ensures RenderEntry(e) == RenderRemarks(AsRemarks(e))
  {
    var first := [Remark(e.first, e.more == [] && e.sealed)];
    MoreAsRemarks(e.more, e.sealed);
    RemarksAppend(first, MoreRemarks(e.more, e.sealed));
    RemarksAppend(first + MoreRemarks(e.more, e.sealed), e.remarks);
    assert RenderRemarks(first) == [FirstLine(e)];
  }

  lemma EntryTakesOver(e: Entry, remarks: seq<Remark>)
    ensures RenderEntry(e.(remarks := e.remarks + remarks)) == RenderEntry(e) + RenderRemarks(remarks)
  {
    RemarksAppend(e.remarks, remarks);
  }

  lemma RenderCons(e: Entry, entries: seq<Entry>)
    ensures RenderTable([e] + entries) == RenderEntry(e) + RenderTable(entries)
  {
    assert ([e] + entries)[1..] == entries;
  }

  lemma Regroup(a: seq<Line>, b: seq<Line>, c: seq<Line>)
    ensures a + (b + c) == (a + b) + c
  {
  }

  /** The table's lines are those of the merged entries, after some that belong to none. */
  lemma {:induction false} RenderMerged(entries: seq<Entry>)
    ensures RenderTable(entries) == RenderRemarks(Following(entries)) + RenderTable(Merged(entries))
  {
    if entries != [] {
      var e, rest := entries[0], entries[1..];
      RenderMerged(rest);
      if WordName(e.name) {
        EntryTakesOver(e, Following(rest));
        RenderCons(e.(remarks := e.remarks + Following(rest)), Merged(rest));
        Regroup(RenderEntry(e), RenderRemarks(Following(rest)), RenderTable(Merged(rest)));
      } else {
        DroppedAsRemarks(e);
        RemarksAppend(AsRemarks(e), Following(rest));
        Regroup(RenderEntry(e), RenderRemarks(Following(rest)), RenderTable(Merged(rest)));
      }
    }
  }

  /** What the script reads off any manifest: the merged entries, each with the texts it takes in. */
  lemma ManifestRead(before: seq<Line>, entries: seq<Entry>, after: seq<Line>)
    requires Surrounds(before, after)
    ensures TableRead(before, entries, after) == TableOf(map[], AsHeard(Merged(entries)))
  {
    var lead := RenderRemarks(Following(entries));
    ReadsTableOnly(before, entries, after);
    RenderMerged(entries);
    ReadAppend(BEGUN, lead, RenderTable(Merged(entries)));
    PlainIgnoredWhenIdle(BEGUN, lead);
    var left := WordTableRead(Idle, map[], Merged(entries));
  }

  /** The quoted texts that an entry takes in if it is left open. */
  function Taken(entries: seq<Entry>, i: nat): seq<string>
    requires i < |entries|
  {
    if entries[i].sealed then [] else Absorbed(entries[i].remarks + Following(entries[i + 1..]))
  }

  /** The entry of that name, as the script reads it; without a word name there is none. */
  ghost predicate ReadAsAt(read: Features, start: Features, entries: seq<Entry>, k: string) {
    && ((forall i :: 0 <= i < |entries| ==> entries[i].name != k) || !WordName(k) ==>
          (k in read <==> k in start) && (k in read && k in start ==> read[k] == start[k]))
    && (forall i :: 0 <= i < |entries| && entries[i].name == k && WordName(k) ==>
          k in read && read[k] == ItemsOf(entries[i]) + Taken(entries, i))
  }

  lemma {:induction false} ReadEntry(start: Features, entries: seq<Entry>, k: string)
    requires DistinctEntries(entries)
    ensures ReadAsAt(TableOf(start, AsHeard(Merged(entries))), start, entries, k)
    decreases |entries|
  {
    if entries != [] {
      var e, rest := entries[0], entries[1..];
      var heard := AsHeard(Merged(entries));
      forall i | 0 < i < |entries| ensures entries[i] == rest[i - 1] && Taken(entries, i) == Taken(rest, i - 1) {
        assert entries[i + 1..] == rest[i..];
      }
      if WordName(e.name) {
        var all := e.(remarks := e.remarks + Following(rest));
        assert ItemsOf(all) == ItemsOf(e) && Heard(all) == ItemsOf(e) + Taken(entries, 0);
        assert heard[1..] == AsHeard(Merged(rest));
        ReadEntry(start[e.name := Heard(all)], rest, k);
      } else {
        ReadEntry(start, rest, k);
      }
    }
  }

  // ---------- what the check says of a manifest ----------

  lemma ReachesNext(features: Features, a: string, b: string)
    requires b in Deps(features, a)
    ensures Reaches(features, a, b)
  {
    ReachesSelf(features, b);
    ReachesThrough(features, a, b, b);
  }

  lemma {:induction false} PathGivesReach(f: Features, g: Features, path: seq<string>, a: string, b: string)
    requires IsPath(f, path, a, b) && forall t, d :: d in Deps(f, t) ==> Reaches(g, t, d)
    ensures Reaches(g, a, b)
  {
    if |path| == 1 {
      ReachesSelf(g, a);
    } else {
      assert path[0 + 1] in Deps(f, path[0]);
      PathGivesReach(f, g, path[1..], path[1], b);
      ReachesTransitive(g, a, path[1], b);
    }
  }

  lemma ReachesTransitive(features: Features, a: string, b: string, c: string)
    requires Reaches(features, a, b) && Reaches(features, b, c)
    ensures Reaches(features, a, c)
  {
    var path :| IsPath(features, path, a, b);
    PrependPath(features, path, a, b, c);
  }

  lemma {:induction false} PrependPath(features: Features, path: seq<string>, a: string, b: string, c: string)
    requires IsPath(features, path, a, b) && Reaches(features, b, c)
    ensures Reaches(features, a, c)
  {
    if |path| > 1 {
      assert path[0 + 1] in Deps(features, path[0]);
      PrependPath(features, path[1..], path[1], b, c);
      ReachesThrough(features, a, path[1], c);
    }
  }

  /** If each dependency of one table is reached in another, so is all that the one reaches. */
  lemma EdgesGiveReach(f: Features, g: Features)
    requires forall t, d :: d in Deps(f, t) ==> Reaches(g, t, d)
    ensures forall a, b :: Reaches(f, a, b) ==> Reaches(g, a, b)
  {
    forall a, b | Reaches(f, a, b) ensures Reaches(g, a, b) {
      var path :| IsPath(f, path, a, b);
      PathGivesReach(f, g, path, a, b);
    }
  }

  /** A dependency that the script follows: an item of a word-named entry, or a text that it takes in. */
  ghost predicate HeardStep(entries: seq<Entry>, a: string, d: string) {
    exists i :: 0 <= i < |entries| && entries[i].name == a && WordName(a)
             && (d in ItemsOf(entries[i]) || d in Taken(entries, i))
  }

  ghost predicate HeardPath(entries: seq<Entry>, path: seq<string>, a: string, b: string) {
    && path != [] && path[0] == a && path[|path| - 1] == b
    && forall i :: 0 <= i < |path| - 1 ==> HeardStep(entries, path[i], path[i + 1])
  }

  lemma TableAsWritten(entries: seq<Entry>, k: string)
    requires DistinctEntries(entries)
    ensures var table := TableOf(map[], entries);
      && (k in table <==> exists i :: 0 <= i < |entries| && entries[i].name == k)
      && (forall i :: 0 <= i < |entries| && entries[i].name == k ==> Deps(table, k) == ItemsOf(entries[i]))
  {
    TableKeys(map[], entries, k);
    forall i: nat | i < |entries| && entries[i].name == k
      ensures Deps(TableOf(map[], entries), k) == ItemsOf(entries[i])
    {
      TableAt(map[], entries, i);
    }
  }

  /** A name has one entry. */
  lemma StepsOfEntry(entries: seq<Entry>, i: nat, d: string)
    requires DistinctEntries(entries) && i < |entries| && WordName(entries[i].name)
    ensures HeardStep(entries, entries[i].name, d) <==> d in ItemsOf(entries[i]) + Taken(entries, i)
  {
    if HeardStep(entries, entries[i].name, d) {
      var j :| 0 <= j < |entries| && entries[j].name == entries[i].name
            && (d in ItemsOf(entries[j]) || d in Taken(entries, j));
      assert j == i;
    }
  }

  lemma TableAsRead(before: seq<Line>, entries: seq<Entry>, after: seq<Line>, k: string)
    requires Surrounds(before, after) && DistinctEntries(entries)
    ensures var read := TableRead(before, entries, after);
      && (k in read <==> WordName(k) && exists i :: 0 <= i < |entries| && entries[i].name == k)
      && (forall d :: d in Deps(read, k) <==> HeardStep(entries, k, d))
  {
    ManifestRead(before, entries, after);
    ReadEntry(map[], entries, k);
    if i: nat :| i < |entries| && entries[i].name == k && WordName(k) {
      forall d ensures d in Deps(TableRead(before, entries, after), k) <==> HeardStep(entries, k, d) {
        StepsOfEntry(entries, i, d);
      }
    }
  }

  /** The tables as written and as read, dependency by dependency. */
  lemma TwoTables(before: seq<Line>, entries: seq<Entry>, after: seq<Line>, k: string)
    requires Surrounds(before, after) && DistinctEntries(entries)
    ensures var read, table := TableRead(before, entries, after), TableOf(map[], entries);
      && (k in table <==> exists i :: 0 <= i < |entries| && entries[i].name == k)
      && (k in read <==> k in table && WordName(k))
      && (forall d :: d in Deps(read, k) <==> HeardStep(entries, k, d))
      && (forall i :: 0 <= i < |entries| && entries[i].name == k ==> Deps(table, k) == ItemsOf(entries[i]))
  {
    TableAsRead(before, entries, after, k);
    TableAsWritten(entries, k);
  }

  /**
    On any manifest the check passes exactly when the feature is there under a word name and every
    required token is reached along dependencies that the script follows.
   */
  lemma CheckPassesIff(before: seq<Line>, entries: seq<Entry>, after: seq<Line>, name: string, required: seq<string>)
    requires Surrounds(before, after) && DistinctEntries(entries)
    ensures Covers(TableRead(before, entries, after), name, required) <==>
      && WordName(name) && (exists i :: 0 <= i < |entries| && entries[i].name == name)
      && forall t :: t in required ==> exists path :: HeardPath(entries, path, name, t)
  {
    var read := TableRead(before, entries, after);
    TwoTables(before, entries, after, name);
    forall k, d ensures d in Deps(read, k) <==> HeardStep(entries, k, d) {
      TwoTables(before, entries, after, k);
    }
    forall path, t ensures IsPath(read, path, name, t) <==> HeardPath(entries, path, name, t) {
      if IsPath(read, path, name, t) {
        forall i | 0 <= i < |path| - 1 ensures HeardStep(entries, path[i], path[i + 1]) {
          assert path[i + 1] in Deps(read, path[i]);
        }
      }
    }
    forall t ensures Reaches(read, name, t) <==> exists path :: HeardPath(entries, path, name, t) {}
  }

  /** What a word-named entry takes in, it also reaches as written. */
  ghost predicate TakesInReached(entries: seq<Entry>) {
    forall i: nat, t :: i < |entries| && WordName(entries[i].name) && t in Taken(entries, i) ==>
      Reaches(TableOf(map[], entries), entries[i].name, t)
  }

  ghost predicate NeverWrong(read: Features, table: Features) {
    forall name, required :: Covers(read, name, required) ==> Covers(table, name, required)
  }

  /** The check never passes wrongly if and only if entries take in only what they reach as written. */
  lemma NeverWrongIff(before: seq<Line>, entries: seq<Entry>, after: seq<Line>)
    requires Surrounds(before, after) && DistinctEntries(entries)
    ensures NeverWrong(TableRead(before, entries, after), TableOf(map[], entries)) <==> TakesInReached(entries)
  {
    var read, table := TableRead(before, entries, after), TableOf(map[], entries);
    forall k ensures k in read ==> k in table {
      TwoTables(before, entries, after, k);
    }
    if TakesInReached(entries) {
      forall t, d | d in Deps(read, t) ensures Reaches(table, t, d) {
        TwoTables(before, entries, after, t);
        var i :| 0 <= i < |entries| && entries[i].name == t && (d in ItemsOf(entries[i]) || d in Taken(entries, i));
        if d in ItemsOf(entries[i]) {
          ReachesNext(table, t, d);
        }
      }
      EdgesGiveReach(read, table);
    } else {
      var i: nat, t :| i < |entries| && WordName(entries[i].name) && t in Taken(entries, i)
                    && !Reaches(table, entries[i].name, t);
      var name := entries[i].name;
      TwoTables(before, entries, after, name);
      assert HeardStep(entries, name, t);
      ReachesNext(read, name, t);
      assert Covers(read, name, [t]) && t in [t] && !Covers(table, name, [t]);
    }
  }

  /** It never fails wrongly if and only if every entry has a word name. */
  lemma MissesNothingIff(before: seq<Line>, entries: seq<Entry>, after: seq<Line>)
    requires Surrounds(before, after) && DistinctEntries(entries)
    ensures NeverWrong(TableOf(map[], entries), TableRead(before, entries, after)) <==> WordNamed(entries)
  {
    var read, table := TableRead(before, entries, after), TableOf(map[], entries);
    forall k ensures k in read <==> k in table && WordName(k) {
      TwoTables(before, entries, after, k);
    }
    if WordNamed(entries) {
      forall t, d | d in Deps(table, t) ensures Reaches(read, t, d) {
        TwoTables(before, entries, after, t);
        var i :| 0 <= i < |entries| && entries[i].name == t;
        assert HeardStep(entries, t, d);
        ReachesNext(read, t, d);
      }
      EdgesGiveReach(table, read);
      forall k | k in table ensures k in read {
        TwoTables(before, entries, after, k);
      }
    } else {
      var i :| 0 <= i < |entries| && !WordName(entries[i].name);
      TwoTables(before, entries, after, entries[i].name);
      assert Covers(table, entries[i].name, []) && !Covers(read, entries[i].name, []);
    }
  }

  /**
    All verdicts on a manifest are right if and only if every entry has a word name and takes in only what
    it reaches as written.
   */
  lemma CheckRightIff(before: seq<Line>, entries: seq<Entry>, after: seq<Line>)
    requires Surrounds(before, after) && DistinctEntries(entries)
    ensures (forall name, required ::
               (Covers(TableRead(before, entries, after), name, required) <==>
                Covers(TableOf(map[], entries), name, required)))
      <==> WordNamed(entries) && TakesInReached(entries)
  {
    var read, table := TableRead(before, entries, after), TableOf(map[], entries);
    NeverWrongIff(before, entries, after);
    MissesNothingIff(before, entries, after);
    if WordNamed(entries) && TakesInReached(entries) {
      forall name, required ensures Covers(read, name, required) <==> Covers(table, name, required) {
        assert NeverWrong(read, table) && NeverWrong(table, read);
      }
    }
  }

  /** With word names only, an open entry takes in the texts of its own remarks and no more. */
  lemma WordNamedTakes(entries: seq<Entry>, i: nat)
    requires WordNamed(entries) && i < |entries|
    ensures Taken(entries, i) == if entries[i].sealed then [] else Absorbed(entries[i].remarks)
  {
    var rest := entries[i + 1..];
    if rest != [] {
      assert rest[0] == entries[i + 1];
    }
    assert Following(rest) == [] && entries[i].remarks + [] == entries[i].remarks;
  }

  /**
    An entry under a hyphenated name is dropped: what a feature reaches through it alone is reported
    missing, though the manifest provides it.
   */
  lemma HyphenIsDropped(before: seq<Line>, after: seq<Line>, hyphenated: string, feature: string, dep: string)
    requires Surrounds(before, after) && !WordName(hyphenated) && WordName(feature)
    requires dep != feature && dep != hyphenated
    ensures var entries := [Entry(hyphenated, [dep], [], true, []), Entry(feature, [hyphenated], [], true, [])];
      var read := TableRead(before, entries, after);
      && hyphenated !in read && feature in read
      && Covers(TableOf(map[], entries), feature, [dep])
      && Unreached(read, feature, [dep]) == [dep]
  {
    var entries := [Entry(hyphenated, [dep], [], true, []), Entry(feature, [hyphenated], [], true, [])];
    var table := TableOf(map[], entries);
    SealedManifestRead(before, entries, after);
    TableAt(map[], entries, 0);
    TableAt(map[], entries, 1);
    assert ItemsOf(entries[0]) == [dep] && ItemsOf(entries[1]) == [hyphenated];
    ReachesNext(table, hyphenated, dep);
    ReachesThrough(table, feature, hyphenated, dep);
    assert Deps(WordsOnly(table), feature) == [hyphenated] && Deps(WordsOnly(table), hyphenated) == [];
    TableKeys(map[], entries, dep);
    ClosedHoldsReach(WordsOnly(table), {feature, hyphenated}, feature);
    assert [dep][1..] == [];
  }

  /** The JVM manifest's own `link-main`, through which `full` reaches `dep:csv`. */
  lemma LinkMainIsDropped(before: seq<Line>, after: seq<Line>)
    requires Surrounds(before, after)
    ensures var entries := [Entry("link-main", ["dep:csv"], [], true, []), Entry("full", ["link-main"], [], true, [])];
      && Covers(TableOf(map[], entries), "full", ["dep:csv"])
      && !Covers(TableRead(before, entries, after), "full", ["dep:csv"])
  {
    assert !WordChar("link-main"[4]);
    HyphenIsDropped(before, after, "link-main", "full", "dep:csv");
    var entries := [Entry("link-main", ["dep:csv"], [], true, []), Entry("full", ["link-main"], [], true, [])];
    UnreachedExact(TableRead(before, entries, after), "full", ["dep:csv"]);
  }

  /** A comment behind the closing bracket leaves the entry open, and a quoted text in the next comment joins it. */
  lemma CommentIsAbsorbed(before: seq<Line>, after: seq<Line>, name: string, text: string)
    requires Surrounds(before, after) && WordName(name)
    ensures TableRead(before, [Entry(name, [], [], false, [Remark([text], false)])], after) == map[name := [text]]
  {
    var entries := [Entry(name, [], [], false, [Remark([text], false)])];
    ReadsTableOnly(before, entries, after);
    var left := WordTableRead(Idle, map[], entries);
    var heard := AsHeard(entries);
    assert [Remark([text], false)][1..] == [];
    assert Absorbed([Remark([text], false)]) == [text] + [] == [text];
    assert Heard(entries[0]) == [] + Flatten([]) + [text] == [text];
    assert heard[1..] == [];
    assert TableOf(map[], heard) == map[name := [text]];
  }
}
