/** The crate's tabular data model: schemas, cells and datasets (src/types.rs). */
module DataModel {

  datatype Option<+T> = None | Some(value: T)

  datatype Result<+T, +E> = Ok(value: T) | Err(error: E)

  datatype DataType = Int64Type | Float64Type | BoolType | Utf8Type

  datatype Field = Field(name: string, dataType: DataType)

  datatype Schema = Schema(fields: seq<Field>)
  {
    function Names(): (names: seq<string>)
      ensures |names| == |fields| && forall i :: 0 <= i < |fields| ==> names[i] == fields[i].name
    {
      seq(|fields|, i requires 0 <= i < |fields| => fields[i].name)
    }

    /** The first field with the given name, as `Schema::index_of` finds it. */
    function IndexOf(name: string): (r: Option<nat>)
      ensures r.Some? ==> r.value < |fields| && fields[r.value].name == name
      ensures r.Some? ==> forall i :: 0 <= i < r.value ==> fields[i].name != name
      ensures r.None? ==> forall i :: 0 <= i < |fields| ==> fields[i].name != name
    {
      FirstNamed(Names(), name, 0)
    }

    ghost predicate DistinctNames() {
      forall i, j :: 0 <= i < j < |fields| ==> fields[i].name != fields[j].name
    }
  }

  /** The first position, from `from` on, at which a name stands. */
  function FirstNamed(names: seq<string>, name: string, from: nat): (r: Option<nat>)
    requires from <= |names|
    ensures r.Some? ==> from <= r.value < |names| && names[r.value] == name
    ensures r.Some? ==> forall i :: from <= i < r.value ==> names[i] != name
    ensures r.None? ==> forall i :: from <= i < |names| ==> names[i] != name
    decreases |names| - from
  {
    if from == |names| then None
    else if names[from] == name then Some(from)
    else FirstNamed(names, name, from + 1)
  }

  /** A cell. Floats are opaque: only their identity matters here. */
  datatype Value =
    | Null
    | Int64(int64: int)
    | Float64(float64: Float)
    | Bool(truth: bool)
    | Utf8(utf8: string)

  datatype Float = Finite(literal: nat) | NonFinite(bits: nat)

  type Row = seq<Value>

  datatype DataSet = DataSet(schema: Schema, rows: seq<Row>)
  {
    /** Every row has exactly one cell per field. */
    ghost predicate Rectangular() {
      forall i :: 0 <= i < |rows| ==> |rows[i]| == |schema.fields|
    }
  }

  /** Whether a cell may stand in a column of the given type: nulls may, everywhere. */
  predicate Fits(v: Value, t: DataType) {
    match v
    case Null => true
    case Int64(_) => t == Int64Type
    case Float64(_) => t == Float64Type
    case Bool(_) => t == BoolType
    case Utf8(_) => t == Utf8Type
  }

  // ---------- keeping some rows ----------

  /** The rows whose flag is set, in order. */
  function Kept(rows: seq<Row>, keep: seq<bool>): seq<Row>
    requires |rows| == |keep|
  {
    if rows == [] then []
    else (if keep[0] then [rows[0]] else []) + Kept(rows[1..], keep[1..])
  }

  lemma {:induction false} KeptSnoc(rows: seq<Row>, keep: seq<bool>, row: Row, k: bool)
    requires |rows| == |keep|
    ensures Kept(rows + [row], keep + [k]) == Kept(rows, keep) + if k then [row] else []
  {
    if rows == [] {
      assert ([] + [row])[1..] == [] && ([] + [k])[1..] == [];
    } else {
      assert (rows + [row])[1..] == rows[1..] + [row] && (keep + [k])[1..] == keep[1..] + [k];
      KeptSnoc(rows[1..], keep[1..], row, k);
    }
  }

  /** `out` is the rows at the flagged positions `at`, which are all of them, in increasing order. */
  ghost predicate Picked(rows: seq<Row>, keep: seq<bool>, out: seq<Row>, at: seq<nat>)
    requires |rows| == |keep|
  {
    && |at| == |out|
    && (forall i, j :: 0 <= i < j < |at| ==> at[i] < at[j])
    && (forall k: nat :: k in at <==> k < |rows| && keep[k])
    && (forall i :: 0 <= i < |at| && at[i] < |rows| ==> out[i] == rows[at[i]])
  }

  lemma PickedSnoc(rows: seq<Row>, keep: seq<bool>, out: seq<Row>, at: seq<nat>, row: Row, k: bool)
    requires |rows| == |keep| && Picked(rows, keep, out, at)
    ensures Picked(rows + [row], keep + [k], if k then out + [row] else out, if k then at + [|rows|] else at)
  {
    forall i | 0 <= i < |at| ensures at[i] < |rows| {
      assert at[i] in at;
    }
  }

  lemma LastOff(rows: seq<Row>, keep: seq<bool>)
    requires |rows| == |keep| > 0
    ensures var n := |rows| - 1; rows == rows[..n] + [rows[n]] && keep == keep[..n] + [keep[n]]
  {
  }

  /** Keeping rows neither loses, adds, repeats nor reorders any. */
  lemma {:induction false} KeptArePicked(rows: seq<Row>, keep: seq<bool>) returns (at: seq<nat>)
    requires |rows| == |keep|
    ensures Picked(rows, keep, Kept(rows, keep), at)
    decreases |rows|
  {
    at := [];
    if rows != [] {
      var n := |rows| - 1;
      var before, flags, row, flag := rows[..n], keep[..n], rows[n], keep[n];
      at := KeptArePicked(before, flags);
      PickedSnoc(before, flags, Kept(before, flags), at, row, flag);
      KeptSnoc(before, flags, row, flag);
      LastOff(rows, keep);
      if flag {
        at := at + [n];
      } else {
        assert Kept(before, flags) + [] == Kept(before, flags);
      }
    }
  }

  /** Nothing is dropped exactly when every flag is set. */
  lemma {:induction false} KeptAllIff(rows: seq<Row>, keep: seq<bool>)
    requires |rows| == |keep|
    ensures |Kept(rows, keep)| <= |rows|
    ensures Kept(rows, keep) == rows <==> forall i :: 0 <= i < |keep| ==> keep[i]
    decreases |rows|
  {
    if rows != [] {
      var n := |rows| - 1;
      LastOff(rows, keep);
      KeptSnoc(rows[..n], keep[..n], rows[n], keep[n]);
      KeptAllIff(rows[..n], keep[..n]);
      if keep[n] && Kept(rows, keep) == rows {
        assert Kept(rows, keep)[..n] == Kept(rows[..n], keep[..n]);
      }
    }
  }
}
