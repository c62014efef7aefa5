/**
  The UTF-8 column rewrites (`utf8_truncate_dataset`, `utf8_sha256_dataset`,
  `utf8_redact_middle_dataset`) and runs of them (`TransformSpec::apply`, where the hop through a
  data frame between steps is the identity).
 */
module Utf8Steps {
  import opened Bytes
  import opened DataModel

  /** SHA-256 stays abstract: any function to 32 bytes. */
  type Digest = string -> seq<Byte>

  ghost predicate IsDigest(digest: Digest) {
    forall s :: |digest(s)| == 32
  }

  // ---------- cells ----------

  datatype Change =
    | Truncate(maxChars: nat)
    | Sha256Hex
    | RedactMiddle(keepLeft: nat, keepRight: nat, redaction: string)

  function HexOf(bytes: seq<Byte>): string {
    if bytes == [] then "" else [HexDigit(bytes[0] / 16), HexDigit(bytes[0] % 16)] + HexOf(bytes[1..])
  }

  function Changed(change: Change, digest: Digest, s: string): string {
    match change
    case Truncate(n) => if |s| <= n then s else s[..n]
    case Sha256Hex => HexOf(digest(s))
    case RedactMiddle(l, r, redaction) =>
      if |s| > l + r then s[..l] + redaction + s[|s| - r..] else s
  }

  function ChangedCell(change: Change, digest: Digest, v: Value): Value {
    if v.Utf8? then Utf8(Changed(change, digest, v.utf8)) else v
  }

  lemma {:induction false} HexLength(bytes: seq<Byte>)
    ensures |HexOf(bytes)| == 2 * |bytes|
  {
    if bytes != [] {
      HexLength(bytes[1..]);
    }
  }

  /** The hex text spells the digest, byte by byte. */
  lemma {:induction false} HexSpells(bytes: seq<Byte>)
    ensures SpellsHex(HexOf(bytes), bytes)
  {
    HexLength(bytes);
    if bytes != [] {
      var rest := HexOf(bytes[1..]);
      HexSpells(bytes[1..]);
      DigitReads(bytes[0] / 16);
      DigitReads(bytes[0] % 16);
      forall i | 0 <= i < |bytes| ensures ByteAt(HexOf(bytes), 2 * i, bytes[i]) {
        if i > 0 {
          assert ByteAt(rest, 2 * (i - 1), bytes[1..][i - 1]);
          assert HexOf(bytes)[2 * i] == rest[2 * i - 2] && HexOf(bytes)[2 * i + 1] == rest[2 * i - 1];
        }
      }
    }
  }

  /** So it determines the digest: equal hashed cells mean equal digests. */
  lemma HexInjective(a: seq<Byte>, b: seq<Byte>)
    requires HexOf(a) == HexOf(b)
    ensures a == b
  {
    HexSpells(a);
    HexSpells(b);
    forall i | 0 <= i < |a| ensures a[i] == b[i] {
      assert ByteAt(HexOf(a), 2 * i, a[i]) && ByteAt(HexOf(b), 2 * i, b[i]);
    }
  }

  /** Truncations compose to the shorter one. */
  lemma {:induction false} TruncateTwice(m: nat, n: nat, digest: Digest, s: string)
    ensures Changed(Truncate(n), digest, Changed(Truncate(m), digest, s))
         == Changed(Truncate(if m < n then m else n), digest, s)
  {
  }

  /** Redacting the middle again changes nothing, for every redaction text, the empty one included. */
  lemma {:induction false} RedactTwice(l: nat, r: nat, redaction: string, digest: Digest, s: string)
    ensures var change := RedactMiddle(l, r, redaction);
      Changed(change, digest, Changed(change, digest, s)) == Changed(change, digest, s)
  {
    if |s| > l + r {
      var t := s[..l] + redaction + s[|s| - r..];
      assert t[..l] == s[..l];
      assert t[|t| - r..] == s[|s| - r..];
    }
  }

  lemma SameEnds(a: string, b: string, c: string, d: string, middle: string)
    requires |a| == |c| && |b| == |d|
    ensures a + middle + b == c + middle + d <==> a == c && b == d
  {
    var x, y := a + middle + b, c + middle + d;
    if x == y {
      assert a == x[..|a|] == y[..|c|] == c;
      assert b == x[|x| - |b|..] == y[|y| - |d|..] == d;
    }
  }

  /**
    A redacted text shows its two ends and nothing else: two texts long enough to be redacted come
    out equal exactly when they begin with the same kept characters and end with the same ones.
   */
  lemma RedactionShowsEndsOnly(l: nat, r: nat, redaction: string, digest: Digest, s: string, t: string)
    requires |s| > l + r && |t| > l + r
    ensures var change := RedactMiddle(l, r, redaction);
      Changed(change, digest, s) == Changed(change, digest, t) <==> s[..l] == t[..l] && s[|s| - r..] == t[|t| - r..]
  {
    var change := RedactMiddle(l, r, redaction);
    var a, b, c, d := s[..l], s[|s| - r..], t[..l], t[|t| - r..];
    assert Changed(change, digest, s) == a + redaction + b;
    assert Changed(change, digest, t) == c + redaction + d;
    SameEnds(a, b, c, d, redaction);
  }

  /** A truncated text is the longest prefix of the original within the bound. */
  lemma TruncationIsLongestPrefix(n: nat, digest: Digest, s: string, p: string)
    requires p <= s && |p| <= n
    ensures p <= Changed(Truncate(n), digest, s) <= s && |Changed(Truncate(n), digest, s)| <= n
  {
  }

  ghost predicate Idempotent(change: Change) {
    !change.Sha256Hex?
  }

  lemma ChangeTwice(change: Change, digest: Digest, v: Value)
    requires Idempotent(change)
    ensures ChangedCell(change, digest, ChangedCell(change, digest, v)) == ChangedCell(change, digest, v)
  {
    if v.Utf8? && change.RedactMiddle? {
      RedactTwice(change.keepLeft, change.keepRight, change.redaction, digest, v.utf8);
    }
  }

  // ---------- columns ----------

  datatype StepError = UnknownColumn(name: string) | NotUtf8(name: string) | IndexPanic

  function Utf8FieldIndex(schema: Schema, column: string): (r: Result<nat, StepError>)
    ensures r.Ok? ==> r.value < |schema.fields| && schema.fields[r.value].name == column
    ensures r.Ok? ==> schema.fields[r.value].dataType == Utf8Type
    ensures r.Ok? ==> forall i :: 0 <= i < r.value ==> schema.fields[i].name != column
    ensures r == Err(UnknownColumn(column)) <==>
      forall i :: 0 <= i < |schema.fields| ==> schema.fields[i].name != column
    ensures r.Err? ==> r == Err(UnknownColumn(column)) || r == Err(NotUtf8(column))
    ensures r == Err(NotUtf8(column)) <==>
      exists j :: 0 <= j < |schema.fields| && schema.fields[j].name == column && schema.fields[j].dataType != Utf8Type
               && forall i :: 0 <= i < j ==> schema.fields[i].name != column
  {
    var at := schema.IndexOf(column);
    if at.None? then Err(UnknownColumn(column))
    else if schema.fields[at.value].dataType != Utf8Type then Err(NotUtf8(column))
    else Ok(at.value)
  }

  datatype Step = Step(column: string, change: Change)

  /** Every row reaches column `j`; the code indexes rows without checking. */
  predicate Reach(rows: seq<Row>, j: nat) {
    forall i :: 0 <= i < |rows| ==> j < |rows[i]|
  }

  function ChangedRows(rows: seq<Row>, j: nat, change: Change, digest: Digest): (out: seq<Row>)
    requires Reach(rows, j)
    ensures |out| == |rows|
    ensures forall i :: 0 <= i < |rows| ==> out[i] == rows[i][j := ChangedCell(change, digest, rows[i][j])]
  {
    seq(|rows|, i requires 0 <= i < |rows| => rows[i][j := ChangedCell(change, digest, rows[i][j])])
  }

  function ApplyStep(ds: DataSet, step: Step, digest: Digest): Result<DataSet, StepError> {
    var at := Utf8FieldIndex(ds.schema, step.column);
    if at.Err? then Err(at.error)
    else if !Reach(ds.rows, at.value) then Err(IndexPanic)
    else Ok(DataSet(ds.schema, ChangedRows(ds.rows, at.value, step.change, digest)))
  }

  function ApplySteps(ds: DataSet, steps: seq<Step>, digest: Digest): Result<DataSet, StepError>
    decreases |steps|
  {
    if steps == [] then Ok(ds)
    else
      var next := ApplyStep(ds, steps[0], digest);
      if next.Err? then next else ApplySteps(next.value, steps[1..], digest)
  }

  /** What a step is to make of a text. */
  ghost predicate ChangedTo(change: Change, digest: Digest, s: string, t: string) {
    match change
    case Truncate(n) => t <= s && |t| == if |s| <= n then |s| else n
    case Sha256Hex => SpellsHex(t, digest(s))
    case RedactMiddle(l, r, redaction) =>
      if |s| <= l + r then t == s
      else
        && |t| == l + |redaction| + r
        && t[..l] == s[..l] && t[l..l + |redaction|] == redaction && t[l + |redaction|..] == s[|s| - r..]
  }

  lemma ChangedMeans(change: Change, digest: Digest, s: string)
    ensures ChangedTo(change, digest, s, Changed(change, digest, s))
  {
    if change.Sha256Hex? {
      HexSpells(digest(s));
    }
  }

  /** What a successful step does to a row: the text in the first column of the name, if one is there, and no more. */
  lemma StepMeans(ds: DataSet, step: Step, digest: Digest, i: nat) returns (j: nat)
    requires ApplyStep(ds, step, digest).Ok? && i < |ds.rows|
    ensures j < |ds.schema.fields| && ds.schema.fields[j].name == step.column
    ensures forall k :: 0 <= k < j ==> ds.schema.fields[k].name != step.column
    ensures var out := ApplyStep(ds, step, digest).value;
      && out.schema == ds.schema && |out.rows| == |ds.rows| && j < |out.rows[i]| == |ds.rows[i]|
      && (forall k :: 0 <= k < |ds.rows[i]| && k != j ==> out.rows[i][k] == ds.rows[i][k])
      && (if ds.rows[i][j].Utf8?
          then out.rows[i][j].Utf8? && ChangedTo(step.change, digest, ds.rows[i][j].utf8, out.rows[i][j].utf8)
          else out.rows[i][j] == ds.rows[i][j])
  {
    j := Utf8FieldIndex(ds.schema, step.column).value;
    if ds.rows[i][j].Utf8? {
      ChangedMeans(step.change, digest, ds.rows[i][j].utf8);
    }
  }

  // ---------- what every run of steps keeps ----------

  /** Same schema, same row shapes, same null pattern, and the cells of `columns` aside the same cells. */
  ghost predicate SameFrame(a: DataSet, b: DataSet, columns: set<string>) {
    && a.schema == b.schema && |a.rows| == |b.rows|
    && forall i :: 0 <= i < |a.rows| ==> SameRowFrame(a.schema, a.rows[i], b.rows[i], columns)
  }

  ghost predicate SameRowFrame(schema: Schema, a: Row, b: Row, columns: set<string>) {
    && |a| == |b|
    && forall j :: 0 <= j < |a| ==>
         && (a[j].Utf8? <==> b[j].Utf8?)
         && (!(a[j].Utf8? && j < |schema.fields| && schema.fields[j].name in columns) ==> a[j] == b[j])
  }

  lemma StepKeepsFrame(ds: DataSet, step: Step, digest: Digest)
    requires ApplyStep(ds, step, digest).Ok?
    ensures SameFrame(ds, ApplyStep(ds, step, digest).value, {step.column})
  {
  }

  lemma FrameTransitive(a: DataSet, b: DataSet, c: DataSet, s: set<string>, t: set<string>)
    requires SameFrame(a, b, s) && SameFrame(b, c, t)
    ensures SameFrame(a, c, s + t)
  {
    forall i | 0 <= i < |a.rows| ensures SameRowFrame(a.schema, a.rows[i], c.rows[i], s + t) {
      assert SameRowFrame(a.schema, a.rows[i], b.rows[i], s);
      assert SameRowFrame(b.schema, b.rows[i], c.rows[i], t);
    }
  }

  function ColumnsOf(steps: seq<Step>): set<string> {
    set s | s in steps :: s.column
  }

  /** Any run of steps keeps the schema, the row count, the null pattern and every column it does not name. */
  lemma {:induction false} StepsKeepFrame(ds: DataSet, steps: seq<Step>, digest: Digest)
    requires ApplySteps(ds, steps, digest).Ok?
    ensures SameFrame(ds, ApplySteps(ds, steps, digest).value, ColumnsOf(steps))
    decreases |steps|
  {
    if steps != [] {
      var next := ApplyStep(ds, steps[0], digest).value;
      StepKeepsFrame(ds, steps[0], digest);
      StepsKeepFrame(next, steps[1..], digest);
      FrameTransitive(ds, next, ApplySteps(ds, steps, digest).value, {steps[0].column}, ColumnsOf(steps[1..]));
      assert ColumnsOf(steps) == {steps[0].column} + ColumnsOf(steps[1..]) by {
        assert forall s :: s in steps <==> s == steps[0] || s in steps[1..];
      }
    }
  }

  /** On rectangular data a run succeeds exactly when every step names a UTF-8 column, and stays rectangular. */
  lemma {:induction false} StepsSucceedIff(ds: DataSet, steps: seq<Step>, digest: Digest)
    requires ds.Rectangular()
    ensures ApplySteps(ds, steps, digest).Ok? <==>
      forall i :: 0 <= i < |steps| ==> Utf8FieldIndex(ds.schema, steps[i].column).Ok?
    ensures ApplySteps(ds, steps, digest).Ok? ==> ApplySteps(ds, steps, digest).value.Rectangular()
    decreases |steps|
  {
    if steps != [] {
      var next := ApplyStep(ds, steps[0], digest);
      assert next.Ok? <==> Utf8FieldIndex(ds.schema, steps[0].column).Ok?;
      if next.Ok? {
        StepsSucceedIff(next.value, steps[1..], digest);
        assert forall i :: 0 < i < |steps| ==> steps[i] == steps[1..][i - 1];
      }
    }
  }

  /** Two steps on different columns commute, failures included. */
  lemma StepsCommute(ds: DataSet, a: Step, b: Step, digest: Digest)
    requires a.column != b.column
    ensures ApplySteps(ds, [a, b], digest).Ok? <==> ApplySteps(ds, [b, a], digest).Ok?
    ensures ApplySteps(ds, [a, b], digest).Ok? ==> ApplySteps(ds, [a, b], digest) == ApplySteps(ds, [b, a], digest)
  {
    TwoSteps(ds, a, b, digest);
    TwoSteps(ds, b, a, digest);
    var x, y := ApplyStep(ds, a, digest), ApplyStep(ds, b, digest);
    if x.Ok? && y.Ok? {
      var ab, ba := ApplyStep(x.value, b, digest), ApplyStep(y.value, a, digest);
      assert ab.Ok? && ba.Ok?;
      forall i | 0 <= i < |ds.rows| ensures ab.value.rows[i] == ba.value.rows[i] {}
      assert ab.value.rows == ba.value.rows;
    }
  }

  lemma TwoSteps(ds: DataSet, a: Step, b: Step, digest: Digest)
    ensures ApplySteps(ds, [a, b], digest) ==
      if ApplyStep(ds, a, digest).Err? then ApplyStep(ds, a, digest)
      else ApplyStep(ApplyStep(ds, a, digest).value, b, digest)
    ensures ApplyStep(ds, a, digest).Ok? ==>
      (ApplyStep(ApplyStep(ds, a, digest).value, b, digest).Ok? <==> ApplyStep(ds, b, digest).Ok?)
  {
    assert [a, b][1..] == [b] && [b][1..] == [];
    if ApplyStep(ds, a, digest).Ok? {
      var x := ApplyStep(ds, a, digest).value;
      assert forall i :: 0 <= i < |ds.rows| ==> |x.rows[i]| == |ds.rows[i]|;
      assert forall j: nat :: Reach(x.rows, j) <==> Reach(ds.rows, j);
      var next := ApplyStep(x, b, digest);
      assert next.Ok? ==> ApplySteps(next.value, [], digest) == next;
    }
  }

  /** Truncating a column twice is truncating it once, to the smaller bound. */
  lemma TruncationsCompose(ds: DataSet, column: string, m: nat, n: nat, digest: Digest)
    ensures ApplySteps(ds, [Step(column, Truncate(m)), Step(column, Truncate(n))], digest)
         == ApplyStep(ds, Step(column, Truncate(if m < n then m else n)), digest)
  {
    var a, b := Step(column, Truncate(m)), Step(column, Truncate(n));
    TwoSteps(ds, a, b, digest);
    var once := ApplyStep(ds, Step(column, Truncate(if m < n then m else n)), digest);
    if once.Ok? {
      var twice := ApplyStep(ApplyStep(ds, a, digest).value, b, digest);
      var j := Utf8FieldIndex(ds.schema, column).value;
      forall i | 0 <= i < |ds.rows| ensures twice.value.rows[i] == once.value.rows[i] {
        if ds.rows[i][j].Utf8? {
          TruncateTwice(m, n, digest, ds.rows[i][j].utf8);
        }
      }
      assert twice.value.rows == once.value.rows;
    }
  }

  /** Applying the same truncation or redaction again changes nothing. */
  lemma StepTwice(ds: DataSet, step: Step, digest: Digest)
    requires Idempotent(step.change) && ApplyStep(ds, step, digest).Ok?
    ensures ApplyStep(ApplyStep(ds, step, digest).value, step, digest) == ApplyStep(ds, step, digest)
  {
    var once := ApplyStep(ds, step, digest).value;
    var j := Utf8FieldIndex(ds.schema, step.column).value;
    var twice := ApplyStep(once, step, digest);
    forall i | 0 <= i < |ds.rows| ensures twice.value.rows[i] == once.rows[i] {
      ChangeTwice(step.change, digest, ds.rows[i][j]);
    }
    assert twice.value.rows == once.rows;
  }

  /** A hashed column's texts are 64 characters long. */
  lemma HashedCells(ds: DataSet, column: string, digest: Digest, i: nat)
    requires IsDigest(digest) && ApplyStep(ds, Step(column, Sha256Hex), digest).Ok? && i < |ds.rows|
    ensures var j := Utf8FieldIndex(ds.schema, column).value;
      var v := ApplyStep(ds, Step(column, Sha256Hex), digest).value.rows[i][j];
      v.Utf8? ==> |v.utf8| == 64
  {
    var j := Utf8FieldIndex(ds.schema, column).value;
    if ds.rows[i][j].Utf8? {
      HexLength(digest(ds.rows[i][j].utf8));
    }
  }

  // ---------- the in-place rewrites ----------

  /** A dataset being rewritten through `&mut`. */
  class Table {
    const schema: Schema
    var rows: seq<Row>

    constructor (ds: DataSet)
      ensures View() == ds
    {
      schema, rows := ds.schema, ds.rows;
    }

    function View(): DataSet
      reads this
    {
      DataSet(schema, rows)
    }

    /**
      `utf8_truncate_dataset`. On a short row the indexing panics with the rows before it already
      rewritten; on a column error nothing is touched.
     */
    method TruncateColumn(column: string, maxChars: nat, ghost digest: Digest) returns (e: Option<StepError>)
      modifies this`rows
      ensures Rewrote(old(View()), Step(column, Truncate(maxChars)), digest, e)
    {
      var at := Utf8FieldIndex(schema, column);
      if at.Err? {
        return Some(at.error);
      }
      var idx := at.value;
      for i := 0 to |rows|
        invariant Partly(old(rows), idx, Truncate(maxChars), digest, i)
      {
        if idx >= |rows[i]| {
          return Some(IndexPanic);
        }
        if rows[i][idx].Utf8? {
          var s := rows[i][idx].utf8;
          rows := rows[i := rows[i][idx := Utf8(if |s| <= maxChars then s else s[..maxChars])]];
        }
      }
      assert rows == ChangedRows(old(rows), idx, Truncate(maxChars), digest);
      e := None;
    }

    /** `utf8_sha256_dataset`, with the loop that writes each digest byte as two hex digits. */
    method Sha256Column(column: string, digest: Digest) returns (e: Option<StepError>)
      modifies this`rows
      ensures Rewrote(old(View()), Step(column, Sha256Hex), digest, e)
    {
      var at := Utf8FieldIndex(schema, column);
      if at.Err? {
        return Some(at.error);
      }
      var idx := at.value;
      for i := 0 to |rows|
        invariant Partly(old(rows), idx, Sha256Hex, digest, i)
      {
        if idx >= |rows[i]| {
          return Some(IndexPanic);
        }
        if rows[i][idx].Utf8? {
          var hex := WriteHex(digest(rows[i][idx].utf8));
          rows := rows[i := rows[i][idx := Utf8(hex)]];
        }
      }
      assert rows == ChangedRows(old(rows), idx, Sha256Hex, digest);
      e := None;
    }

    /** `utf8_redact_middle_dataset`. */
    method RedactColumn(column: string, keepLeft: nat, keepRight: nat, redaction: string, ghost digest: Digest)
      returns (e: Option<StepError>)
      modifies this`rows
      ensures Rewrote(old(View()), Step(column, RedactMiddle(keepLeft, keepRight, redaction)), digest, e)
    {
      var at := Utf8FieldIndex(schema, column);
      if at.Err? {
        return Some(at.error);
      }
      var idx := at.value;
      for i := 0 to |rows|
        invariant Partly(old(rows), idx, RedactMiddle(keepLeft, keepRight, redaction), digest, i)
      {
        if idx >= |rows[i]| {
          return Some(IndexPanic);
        }
        if rows[i][idx].Utf8? {
          var s := rows[i][idx].utf8;
          if |s| > keepLeft + keepRight {
            rows := rows[i := rows[i][idx := Utf8(s[..keepLeft] + redaction + s[|s| - keepRight..])]];
          }
        }
      }
      assert rows == ChangedRows(old(rows), idx, RedactMiddle(keepLeft, keepRight, redaction), digest);
      e := None;
    }

    /** The first `n` rows are rewritten, the others not yet. */
    ghost predicate Partly(before: seq<Row>, idx: nat, change: Change, digest: Digest, n: nat)
      reads this`rows
    {
      && |rows| == |before| && n <= |before|
      && (forall i :: 0 <= i < n ==>
            idx < |before[i]| && rows[i] == before[i][idx := ChangedCell(change, digest, before[i][idx])])
      && (forall i :: n <= i < |before| ==> rows[i] == before[i])
    }

    /** A rewrite's result: the step's dataset, or its error, with the rows untouched unless it panicked. */
    ghost predicate Rewrote(before: DataSet, step: Step, digest: Digest, e: Option<StepError>)
      reads this
    {
      match e
      case None => Ok(View()) == ApplyStep(before, step, digest)
      case Some(error) =>
        && ApplyStep(before, step, digest) == Err(error)
        && (error != IndexPanic ==> View() == before)
    }
  }

  lemma {:induction false} HexSnoc(bytes: seq<Byte>, b: Byte)
    ensures HexOf(bytes + [b]) == HexOf(bytes) + [HexDigit(b / 16), HexDigit(b % 16)]
  {
    if bytes == [] {
      assert ([] + [b])[1..] == [];
    } else {
      assert (bytes + [b])[1..] == bytes[1..] + [b];
      HexSnoc(bytes[1..], b);
    }
  }

  method WriteHex(bytes: seq<Byte>) returns (hex: string)
    ensures hex == HexOf(bytes) && SpellsHex(hex, bytes)
  {
    hex := "";
    for i := 0 to |bytes|
      invariant hex == HexOf(bytes[..i])
    {
      HexSnoc(bytes[..i], bytes[i]);
      assert bytes[..i + 1] == bytes[..i] + [bytes[i]];
      hex := hex + [HexDigit(bytes[i] / 16), HexDigit(bytes[i] % 16)];
    }
    assert bytes[..|bytes|] == bytes;
    HexSpells(bytes);
  }

  /** `TransformSpec::apply` restricted to UTF-8 steps: stops at the first step that fails. */
  method ApplySpec(ds: DataSet, steps: seq<Step>, digest: Digest) returns (r: Result<DataSet, StepError>)
    ensures r == ApplySteps(ds, steps, digest)
    ensures r.Ok? ==> SameFrame(ds, r.value, ColumnsOf(steps))
  {
    var cur := ds;
    assert steps[0..] == steps;
    for i := 0 to |steps|
      invariant ApplySteps(cur, steps[i..], digest) == ApplySteps(ds, steps, digest)
    {
      assert steps[i..][1..] == steps[i + 1..];
      var table := new Table(cur);
      var e: Option<StepError>;
      match steps[i].change {
        case Truncate(n) => e := table.TruncateColumn(steps[i].column, n, digest);
        case Sha256Hex => e := table.Sha256Column(steps[i].column, digest);
        case RedactMiddle(l, k, redaction) => e := table.RedactColumn(steps[i].column, l, k, redaction, digest);
      }
      if e.Some? {
        return Err(e.value);
      }
      cur := DataSet(table.schema, table.rows);
    }
    r := Ok(cur);
    StepsKeepFrame(ds, steps, digest);
  }

  // ---------- keeping short rows ----------

  predicate KeepsRow(row: Row, idx: nat, maxChars: nat) {
    idx >= |row| || row[idx].Null? || (row[idx].Utf8? && |row[idx].utf8| <= maxChars)
  }

  function Flags(rows: seq<Row>, idx: nat, maxChars: nat): (keep: seq<bool>)
    ensures |keep| == |rows| && forall i :: 0 <= i < |rows| ==> keep[i] == KeepsRow(rows[i], idx, maxChars)
  {
    seq(|rows|, i requires 0 <= i < |rows| => KeepsRow(rows[i], idx, maxChars))
  }

  function ShortRows(rows: seq<Row>, idx: nat, maxChars: nat): seq<Row> {
    Kept(rows, Flags(rows, idx, maxChars))
  }

  function FilterShort(ds: DataSet, column: string, maxChars: nat): Result<DataSet, StepError> {
    var at := Utf8FieldIndex(ds.schema, column);
    if at.Err? then Err(at.error) else Ok(DataSet(ds.schema, ShortRows(ds.rows, at.value, maxChars)))
  }

  lemma ShortRowsSnoc(rows: seq<Row>, row: Row, idx: nat, maxChars: nat)
    ensures ShortRows(rows + [row], idx, maxChars)
         == ShortRows(rows, idx, maxChars) + if KeepsRow(row, idx, maxChars) then [row] else []
  {
    assert Flags(rows + [row], idx, maxChars) == Flags(rows, idx, maxChars) + [KeepsRow(row, idx, maxChars)];
    KeptSnoc(rows, Flags(rows, idx, maxChars), row, KeepsRow(row, idx, maxChars));
  }

  /**
    `out` is the rows at the positions `at`, in increasing order: all those without a cell in column `j`,
    with a null there, or with a text of at most `maxChars` characters.
   */
  ghost predicate ShortAt(rows: seq<Row>, j: nat, maxChars: nat, out: seq<Row>, at: seq<nat>) {
    && |at| == |out|
    && (forall a, b :: 0 <= a < b < |at| ==> at[a] < at[b])
    && (forall k: nat :: k in at <==>
          k < |rows| && (j < |rows[k]| ==> rows[k][j] == Null || (rows[k][j].Utf8? && |rows[k][j].utf8| <= maxChars)))
    && (forall a :: 0 <= a < |at| && at[a] < |rows| ==> out[a] == rows[at[a]])
  }

  /** The filter's answer, on the cells of the first column of that name. */
  ghost predicate FilterAnswers(ds: DataSet, column: string, maxChars: nat, r: Result<DataSet, StepError>) {
    match r
    case Ok(out) =>
      && out.schema == ds.schema
      && exists j, at ::
           && 0 <= j < |ds.schema.fields| && ds.schema.fields[j] == Field(column, Utf8Type)
           && (forall k :: 0 <= k < j ==> ds.schema.fields[k].name != column)
           && ShortAt(ds.rows, j, maxChars, out.rows, at)
    case Err(e) =>
      if forall j :: 0 <= j < |ds.schema.fields| ==> ds.schema.fields[j].name != column then e == UnknownColumn(column)
      else
        && e == NotUtf8(column)
        && exists j :: 0 <= j < |ds.schema.fields| && ds.schema.fields[j].name == column
             && ds.schema.fields[j].dataType != Utf8Type
             && forall k :: 0 <= k < j ==> ds.schema.fields[k].name != column
  }

  lemma FilterShortAnswers(ds: DataSet, column: string, maxChars: nat)
    ensures FilterAnswers(ds, column, maxChars, FilterShort(ds, column, maxChars))
  {
    var j := Utf8FieldIndex(ds.schema, column);
    if j.Ok? {
      var at := KeptArePicked(ds.rows, Flags(ds.rows, j.value, maxChars));
      assert ds.schema.fields[j.value] == Field(column, Utf8Type);
      assert ShortAt(ds.rows, j.value, maxChars, ShortRows(ds.rows, j.value, maxChars), at);
    }
  }

  /** `filter_rows_max_utf8_chars`. */
  method FilterRowsMaxUtf8Chars(ds: DataSet, column: string, maxChars: nat) returns (r: Result<DataSet, StepError>)
    ensures r == FilterShort(ds, column, maxChars)
    ensures FilterAnswers(ds, column, maxChars, r)
  {
    FilterShortAnswers(ds, column, maxChars);
    var at := Utf8FieldIndex(ds.schema, column);
    if at.Err? {
      return Err(at.error);
    }
    var idx := at.value;
    var rows: seq<Row> := [];
    for i := 0 to |ds.rows|
      invariant rows == ShortRows(ds.rows[..i], idx, maxChars)
    {
      var row := ds.rows[i];
      assert ds.rows[..i + 1] == ds.rows[..i] + [row];
      ShortRowsSnoc(ds.rows[..i], row, idx, maxChars);
      if idx >= |row| {
        rows := rows + [row];
      } else {
        match row[idx] {
          case Utf8(s) =>
            if |s| <= maxChars {
              rows := rows + [row];
            }
          case Null =>
            rows := rows + [row];
          case _ =>
        }
      }
    }
    assert ds.rows[..|ds.rows|] == ds.rows;
    r := Ok(DataSet(ds.schema, rows));
  }

  lemma {:induction false} ShortRowsTwice(rows: seq<Row>, j: nat, m: nat, n: nat)
    ensures ShortRows(ShortRows(rows, j, m), j, n) == ShortRows(rows, j, if m < n then m else n)
  {
    if rows != [] {
      var last := |rows| - 1;
      var front, row := rows[..last], rows[last];
      assert rows == front + [row];
      ShortRowsTwice(front, j, m, n);
      ShortRowsSnoc(front, row, j, m);
      ShortRowsSnoc(front, row, j, if m < n then m else n);
      if KeepsRow(row, j, m) {
        ShortRowsSnoc(ShortRows(front, j, m), row, j, n);
      } else {
        assert ShortRows(rows, j, m) == ShortRows(front, j, m);
      }
    }
  }

  /** Filtering at `m` and then at `n` is filtering at the smaller, errors included. */
  lemma FiltersCompose(ds: DataSet, column: string, m: nat, n: nat)
    ensures var once := FilterShort(ds, column, m);
      (if once.Err? then once else FilterShort(once.value, column, n))
      == FilterShort(ds, column, if m < n then m else n)
  {
    if FilterShort(ds, column, m).Ok? {
      ShortRowsTwice(ds.rows, Utf8FieldIndex(ds.schema, column).value, m, n);
    }
  }

  /**
    After truncating a column to `m`, the length filter at `m` keeps every row exactly when the
    column holds only texts and nulls: a cell of another type is dropped, however short.
   */
  lemma TruncateThenFilter(ds: DataSet, column: string, m: nat, digest: Digest)
    requires ApplyStep(ds, Step(column, Truncate(m)), digest).Ok?
    ensures var out := ApplyStep(ds, Step(column, Truncate(m)), digest).value;
      var j := Utf8FieldIndex(ds.schema, column).value;
      FilterShort(out, column, m) == Ok(out) <==>
        forall i :: 0 <= i < |ds.rows| ==> ds.rows[i][j].Utf8? || ds.rows[i][j].Null?
  {
    var out := ApplyStep(ds, Step(column, Truncate(m)), digest).value;
    var j := Utf8FieldIndex(ds.schema, column).value;
    KeptAllIff(out.rows, Flags(out.rows, j, m));
    forall i | 0 <= i < |ds.rows|
      ensures KeepsRow(out.rows[i], j, m) <==> ds.rows[i][j].Utf8? || ds.rows[i][j].Null?
    {}
  }
}
