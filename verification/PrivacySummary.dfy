/**
  Counting changed UTF-8 cells between two datasets (`summarize_utf8_column_changes`), and what the
  counts say about runs of UTF-8 steps.
 */
module PrivacySummary {
  import opened DataModel
  import opened Utf8Steps

  datatype Summary = Summary(column: string, compared: nat, changed: nat)

  /** The pair of texts at two columns of two rows, if both rows have one there. */
  predicate BothText(b: Row, bi: nat, a: Row, ai: nat) {
    bi < |b| && ai < |a| && b[bi].Utf8? && a[ai].Utf8?
  }

  function Shorter(m: nat, n: nat): nat {
    if m <= n then m else n
  }

  /** Among the first `n` row pairs, those with a text on both sides. */
  function Compared(b: seq<Row>, bi: nat, a: seq<Row>, ai: nat, n: nat): nat
    requires n <= |b| && n <= |a|
  {
    if n == 0 then 0
    else Compared(b, bi, a, ai, n - 1) + if BothText(b[n - 1], bi, a[n - 1], ai) then 1 else 0
  }

  /** Among the first `n` row pairs, those whose texts differ. */
  function Differing(b: seq<Row>, bi: nat, a: seq<Row>, ai: nat, n: nat): nat
    requires n <= |b| && n <= |a|
  {
    if n == 0 then 0
    else
      Differing(b, bi, a, ai, n - 1)
      + if BothText(b[n - 1], bi, a[n - 1], ai) && b[n - 1][bi] != a[n - 1][ai] then 1 else 0
  }

  /** The summary of one column; a column missing on either side has none. */
  function SummaryOf(before: DataSet, after: DataSet, name: string): Option<Summary> {
    var bi, ai := before.schema.IndexOf(name), after.schema.IndexOf(name);
    if bi.None? || ai.None? then None
    else
      var n := Shorter(|before.rows|, |after.rows|);
      Some(Summary(name,
                   Compared(before.rows, bi.value, after.rows, ai.value, n),
                   Differing(before.rows, bi.value, after.rows, ai.value, n)))
  }

  function SummariesOf(before: DataSet, after: DataSet, columns: seq<string>): seq<Summary> {
    if columns == [] then []
    else
      var s := SummaryOf(before, after, columns[0]);
      (if s.Some? then [s.value] else []) + SummariesOf(before, after, columns[1..])
  }

  lemma {:induction false} SummariesSnoc(before: DataSet, after: DataSet, columns: seq<string>, name: string)
    ensures var s := SummaryOf(before, after, name);
      SummariesOf(before, after, columns + [name])
      == SummariesOf(before, after, columns) + if s.Some? then [s.value] else []
  {
    if columns == [] {
      assert ([] + [name])[1..] == [];
    } else {
      assert (columns + [name])[1..] == columns[1..] + [name];
      SummariesSnoc(before, after, columns[1..], name);
    }
  }

  /** `summarize_utf8_column_changes`. */
  method Summarize(before: DataSet, after: DataSet, columns: seq<string>) returns (out: seq<Summary>)
    ensures out == SummariesOf(before, after, columns)
    ensures exists at :: Summarizes(before, after, columns, out, at)
    ensures forall s :: s in out ==> s.changed <= s.compared <= Shorter(|before.rows|, |after.rows|)
  {
    out := [];
    for k := 0 to |columns|
      invariant out == SummariesOf(before, after, columns[..k])
      invariant forall s :: s in out ==> s.changed <= s.compared <= Shorter(|before.rows|, |after.rows|)
    {
      var name := columns[k];
      assert columns[..k + 1] == columns[..k] + [name];
      SummariesSnoc(before, after, columns[..k], name);
      var bi, ai := before.schema.IndexOf(name), after.schema.IndexOf(name);
      if bi.Some? && ai.Some? {
        var nonNull, changed := 0, 0;
        for i := 0 to Shorter(|before.rows|, |after.rows|)
          invariant nonNull == Compared(before.rows, bi.value, after.rows, ai.value, i)
          invariant changed == Differing(before.rows, bi.value, after.rows, ai.value, i)
          invariant changed <= nonNull <= i
        {
          var br, ar := before.rows[i], after.rows[i];
          if bi.value < |br| && ai.value < |ar| && br[bi.value].Utf8? && ar[ai.value].Utf8? {
            nonNull := nonNull + 1;
            if br[bi.value].utf8 != ar[ai.value].utf8 {
              changed := changed + 1;
            }
          }
        }
        out := out + [Summary(name, nonNull, changed)];
      }
    }
    assert columns[..|columns|] == columns;
    ghost var at := SummariesAre(before, after, columns);
  }

  // ---------- the counts as a distance ----------

  /** Row `i` has a text in the named column. */
  predicate TextAt(ds: DataSet, name: string, i: nat) {
    var at := ds.schema.IndexOf(name);
    at.Some? && i < |ds.rows| && at.value < |ds.rows[i]| && ds.rows[i][at.value].Utf8?
  }

  function TextOf(ds: DataSet, name: string, i: nat): string
    requires TextAt(ds, name, i)
  {
    ds.rows[i][ds.schema.IndexOf(name).value].utf8
  }

  /** Row `i` counts as changed from `a` to `b`: both have a text there, and not the same one. */
  predicate ChangedAt(a: DataSet, b: DataSet, name: string, i: nat) {
    TextAt(a, name, i) && TextAt(b, name, i) && TextOf(a, name, i) != TextOf(b, name, i)
  }

  /** The changed-cell count of one column. */
  function Distance(a: DataSet, b: DataSet, name: string): nat {
    var s := SummaryOf(a, b, name);
    if s.Some? then s.value.changed else 0
  }

  /** How many of the first `n` rows count as changed. */
  function ChangedRowsUpTo(a: DataSet, b: DataSet, name: string, n: nat): nat {
    if n == 0 then 0 else ChangedRowsUpTo(a, b, name, n - 1) + if ChangedAt(a, b, name, n - 1) then 1 else 0
  }

  lemma {:induction false} DifferingCounts(a: DataSet, b: DataSet, name: string, n: nat)
    requires a.schema.IndexOf(name).Some? && b.schema.IndexOf(name).Some? && n <= |a.rows| && n <= |b.rows|
    ensures Differing(a.rows, a.schema.IndexOf(name).value, b.rows, b.schema.IndexOf(name).value, n)
         == ChangedRowsUpTo(a, b, name, n)
  {
    if n > 0 {
      DifferingCounts(a, b, name, n - 1);
    }
  }

  /** How many of the first `n` rows have a text on both sides. */
  function TextRowsUpTo(a: DataSet, b: DataSet, name: string, n: nat): nat {
    if n == 0 then 0
    else TextRowsUpTo(a, b, name, n - 1) + if TextAt(a, name, n - 1) && TextAt(b, name, n - 1) then 1 else 0
  }

  lemma {:induction false} ComparedCounts(a: DataSet, b: DataSet, name: string, n: nat)
    requires a.schema.IndexOf(name).Some? && b.schema.IndexOf(name).Some? && n <= |a.rows| && n <= |b.rows|
    ensures Compared(a.rows, a.schema.IndexOf(name).value, b.rows, b.schema.IndexOf(name).value, n)
         == TextRowsUpTo(a, b, name, n)
  {
    if n > 0 {
      ComparedCounts(a, b, name, n - 1);
    }
  }

  predicate Knows(ds: DataSet, name: string) {
    exists j :: 0 <= j < |ds.schema.fields| && ds.schema.fields[j].name == name
  }

  /**
    What a summary says: one entry for each requested column that both sides have, in the order requested,
    with the number of rows that have a text there on both sides and the number of those that differ.
   */
  ghost predicate Summarizes(before: DataSet, after: DataSet, columns: seq<string>, out: seq<Summary>, at: seq<nat>) {
    var n := Shorter(|before.rows|, |after.rows|);
    && |at| == |out|
    && (forall i, j :: 0 <= i < j < |at| ==> at[i] < at[j])
    && (forall k: nat :: k in at <==> k < |columns| && Knows(before, columns[k]) && Knows(after, columns[k]))
    && (forall i :: 0 <= i < |at| && at[i] < |columns| ==>
          var name := columns[at[i]];
          out[i] == Summary(name, TextRowsUpTo(before, after, name, n), ChangedRowsUpTo(before, after, name, n)))
  }

  lemma SummaryMeans(before: DataSet, after: DataSet, name: string)
    ensures var s := SummaryOf(before, after, name);
      var n := Shorter(|before.rows|, |after.rows|);
      && (s.Some? <==> Knows(before, name) && Knows(after, name))
      && (s.Some? ==>
            s.value == Summary(name, TextRowsUpTo(before, after, name, n), ChangedRowsUpTo(before, after, name, n)))
  {
    if SummaryOf(before, after, name).Some? {
      var n := Shorter(|before.rows|, |after.rows|);
      ComparedCounts(before, after, name, n);
      DifferingCounts(before, after, name, n);
    }
  }

  lemma {:induction false} SummariesAre(before: DataSet, after: DataSet, columns: seq<string>) returns (at: seq<nat>)
    ensures Summarizes(before, after, columns, SummariesOf(before, after, columns), at)
    decreases |columns|
  {
    at := [];
    if columns != [] {
      var n := |columns| - 1;
      var front, name := columns[..n], columns[n];
      at := SummariesAre(before, after, front);
      forall i | 0 <= i < |at| ensures at[i] < n {
        assert at[i] in at;
      }
      assert columns == front + [name];
      SummariesSnoc(before, after, front, name);
      SummaryMeans(before, after, name);
      if SummaryOf(before, after, name).Some? {
        at := at + [n];
      } else {
        assert SummariesOf(before, after, columns) == SummariesOf(before, after, front);
      }
    }
  }

  lemma {:induction false} NothingChangedBeyond(a: DataSet, b: DataSet, name: string, m: nat, n: nat)
    requires m <= n && forall i: nat :: i >= m ==> !ChangedAt(a, b, name, i)
    ensures ChangedRowsUpTo(a, b, name, n) == ChangedRowsUpTo(a, b, name, m)
  {
    if m < n {
      NothingChangedBeyond(a, b, name, m, n - 1);
    }
  }

  /** The count is the number of changed rows, over any range that holds all rows of one side. */
  lemma DistanceCounts(a: DataSet, b: DataSet, name: string, n: nat)
    requires n >= Shorter(|a.rows|, |b.rows|)
    ensures Distance(a, b, name) == ChangedRowsUpTo(a, b, name, n)
  {
    var m := Shorter(|a.rows|, |b.rows|);
    if a.schema.IndexOf(name).Some? && b.schema.IndexOf(name).Some? {
      DifferingCounts(a, b, name, m);
      NothingChangedBeyond(a, b, name, m, n);
    } else {
      NothingChangedBeyond(a, b, name, 0, n);
    }
  }

  lemma {:induction false} NoneChangedIff(a: DataSet, b: DataSet, name: string, n: nat)
    ensures ChangedRowsUpTo(a, b, name, n) == 0 <==> forall i: nat :: i < n ==> !ChangedAt(a, b, name, i)
  {
    if n > 0 {
      NoneChangedIff(a, b, name, n - 1);
    }
  }

  /** No change is reported exactly when the texts that can be compared agree. */
  lemma DistanceZeroIff(a: DataSet, b: DataSet, name: string)
    ensures Distance(a, b, name) == 0 <==> forall i: nat :: !ChangedAt(a, b, name, i)
  {
    var n := Shorter(|a.rows|, |b.rows|);
    DistanceCounts(a, b, name, n);
    NoneChangedIff(a, b, name, n);
    assert forall i: nat :: ChangedAt(a, b, name, i) ==> i < n;
  }

  // ---------- when changes add up ----------

  /** Where both ends have a text, so has the dataset in between. */
  ghost predicate Bridges(a: DataSet, b: DataSet, c: DataSet, name: string) {
    forall i: nat :: TextAt(a, name, i) && TextAt(c, name, i) ==> TextAt(b, name, i)
  }

  lemma {:induction false} CountsAddUp(a: DataSet, b: DataSet, c: DataSet, name: string, n: nat)
    requires Bridges(a, b, c, name)
    ensures ChangedRowsUpTo(a, c, name, n) <= ChangedRowsUpTo(a, b, name, n) + ChangedRowsUpTo(b, c, name, n)
  {
    if n > 0 {
      CountsAddUp(a, b, c, name, n - 1);
      assert ChangedAt(a, c, name, n - 1) ==> ChangedAt(a, b, name, n - 1) || ChangedAt(b, c, name, n - 1);
    }
  }

  /** Under that condition a change seen from end to end is seen on the way. */
  lemma DistanceTriangle(a: DataSet, b: DataSet, c: DataSet, name: string)
    requires Bridges(a, b, c, name)
    ensures Distance(a, c, name) <= Distance(a, b, name) + Distance(b, c, name)
  {
    var n := |a.rows| + |b.rows| + |c.rows|;
    DistanceCounts(a, c, name, n);
    DistanceCounts(a, b, name, n);
    DistanceCounts(b, c, name, n);
    CountsAddUp(a, b, c, name, n);
  }

  /** The same schema and rows, with texts of the named column in the same places. */
  ghost predicate Refills(ds: DataSet, other: DataSet, name: string) {
    && ds.schema == other.schema && |ds.rows| == |other.rows|
    && forall i: nat :: TextAt(ds, name, i) <==> TextAt(other, name, i)
  }

  /** Every text of the column replaced: the one of row `special` by "x", the others by the empty text. */
  function Refilled(ds: DataSet, name: string, special: Option<nat>): DataSet {
    DataSet(ds.schema, seq(|ds.rows|, i requires 0 <= i < |ds.rows| =>
      if TextAt(ds, name, i)
      then ds.rows[i][ds.schema.IndexOf(name).value := Utf8(if special == Some(i) then "x" else "")]
      else ds.rows[i]))
  }

  lemma RefilledTexts(ds: DataSet, name: string, special: Option<nat>)
    ensures Refills(ds, Refilled(ds, name, special), name)
    ensures forall i: nat :: TextAt(Refilled(ds, name, special), name, i) ==>
      TextOf(Refilled(ds, name, special), name, i) == if special == Some(i) then "x" else ""
  {
  }

  /** The changes add up whatever the texts are. */
  ghost predicate AlwaysAddUp(a: DataSet, b: DataSet, c: DataSet, name: string) {
    forall x, y, z :: Refills(a, x, name) && Refills(b, y, name) && Refills(c, z, name) ==>
      Distance(x, z, name) <= Distance(x, y, name) + Distance(y, z, name)
  }

  lemma UnbridgedExceeds(a: DataSet, b: DataSet, c: DataSet, name: string, i: nat)
    returns (x: DataSet, y: DataSet, z: DataSet)
    requires TextAt(a, name, i) && TextAt(c, name, i) && !TextAt(b, name, i)
    ensures Refills(a, x, name) && Refills(b, y, name) && Refills(c, z, name)
    ensures Distance(x, z, name) > Distance(x, y, name) + Distance(y, z, name)
  {
    x, y, z := Refilled(a, name, None), Refilled(b, name, None), Refilled(c, name, Some(i));
    RefilledTexts(a, name, None);
    RefilledTexts(b, name, None);
    RefilledTexts(c, name, Some(i));
    DistanceZeroIff(x, y, name);
    DistanceZeroIff(y, z, name);
    DistanceZeroIff(x, z, name);
    assert ChangedAt(x, z, name, i);
  }

  /**
    The triangle inequality, exactly: it holds for all texts in the given places if and only if the
    dataset in between has a text wherever both ends have one. Through a null, two changes of which no
    summary sees either add up to one that is seen.
   */
  lemma TriangleIff(a: DataSet, b: DataSet, c: DataSet, name: string)
    ensures AlwaysAddUp(a, b, c, name) <==> Bridges(a, b, c, name)
  {
    if Bridges(a, b, c, name) {
      forall x, y, z | Refills(a, x, name) && Refills(b, y, name) && Refills(c, z, name)
        ensures Distance(x, z, name) <= Distance(x, y, name) + Distance(y, z, name)
      {
        DistanceTriangle(x, y, z, name);
      }
    } else {
      var i: nat :| TextAt(a, name, i) && TextAt(c, name, i) && !TextAt(b, name, i);
      var x, y, z := UnbridgedExceeds(a, b, c, name, i);
    }
  }

  /** One row is enough: a text, a null, another text. */
  lemma TriangleNeedsPattern(name: string) returns (a: DataSet, b: DataSet, c: DataSet)
    ensures a.schema == b.schema == c.schema && |a.rows| == |b.rows| == |c.rows| == 1
    ensures Distance(a, c, name) > Distance(a, b, name) + Distance(b, c, name)
  {
    var schema := Schema([Field(name, Utf8Type)]);
    var text, gap := DataSet(schema, [[Utf8("")]]), DataSet(schema, [[Null]]);
    assert schema.IndexOf(name) == Some(0);
    a, b, c := UnbridgedExceeds(text, gap, text, name, 0);
  }

  // ---------- chains of steps ----------

  /** The sum of the per-step counts along a run. */
  function StepwiseChanges(ds: DataSet, steps: seq<Step>, digest: Digest, name: string): nat
    requires ApplySteps(ds, steps, digest).Ok?
    decreases |steps|
  {
    if steps == [] then 0
    else
      var next := ApplyStep(ds, steps[0], digest).value;
      Distance(ds, next, name) + StepwiseChanges(next, steps[1..], digest, name)
  }

  /** UTF-8 steps leave texts where they are. */
  lemma FrameKeepsTexts(a: DataSet, b: DataSet, columns: set<string>, name: string)
    requires SameFrame(a, b, columns)
    ensures Refills(a, b, name)
  {
    forall i: nat ensures TextAt(a, name, i) <==> TextAt(b, name, i) {
      if i < |a.rows| {
        assert SameRowFrame(a.schema, a.rows[i], b.rows[i], columns);
      }
    }
  }

  /** Over any run of UTF-8 steps, the first-to-last count of a column is at most the sum of the per-step counts. */
  lemma {:induction false} ChangesAddUp(ds: DataSet, steps: seq<Step>, digest: Digest, name: string)
    requires ApplySteps(ds, steps, digest).Ok?
    ensures Distance(ds, ApplySteps(ds, steps, digest).value, name) <= StepwiseChanges(ds, steps, digest, name)
    decreases |steps|
  {
    if steps == [] {
      DistanceZeroIff(ds, ds, name);
    } else {
      var next := ApplyStep(ds, steps[0], digest).value;
      var last := ApplySteps(ds, steps, digest).value;
      StepKeepsFrame(ds, steps[0], digest);
      FrameKeepsTexts(ds, next, {steps[0].column}, name);
      ChangesAddUp(next, steps[1..], digest, name);
      DistanceTriangle(ds, next, last, name);
    }
  }

  /** A run reports no change in any column that none of its steps names. */
  lemma OtherColumnsReportZero(ds: DataSet, steps: seq<Step>, digest: Digest, name: string)
    requires ApplySteps(ds, steps, digest).Ok? && name !in ColumnsOf(steps)
    ensures Distance(ds, ApplySteps(ds, steps, digest).value, name) == 0
  {
    var last := ApplySteps(ds, steps, digest).value;
    StepsKeepFrame(ds, steps, digest);
    forall i: nat ensures !ChangedAt(ds, last, name, i) {
      if i < |ds.rows| {
        assert SameRowFrame(ds.schema, ds.rows[i], last.rows[i], ColumnsOf(steps));
      }
    }
    DistanceZeroIff(ds, last, name);
  }

  /** Re-applying a truncation or a redaction reports zero changes, in every column. */
  lemma ReapplyReportsZero(ds: DataSet, step: Step, digest: Digest, name: string)
    requires Idempotent(step.change) && ApplyStep(ds, step, digest).Ok?
    ensures var once := ApplyStep(ds, step, digest).value;
      && ApplyStep(once, step, digest).Ok?
      && Distance(once, ApplyStep(once, step, digest).value, name) == 0
  {
    StepTwice(ds, step, digest);
    var once := ApplyStep(ds, step, digest).value;
    DistanceZeroIff(once, once, name);
  }
}
