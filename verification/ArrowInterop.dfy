/**
  Row-to-column conversion and back: datasets and Arrow record batches (`transform::arrow`).

  Arrow's typed arrays are one array type carrying its data type; a null slot is `Null`.
 */
module ArrowInterop {
  import opened DataModel

  datatype ArrowType = ArrowInt64 | ArrowFloat64 | ArrowBoolean | ArrowUtf8 | ArrowLargeUtf8 | ArrowOther

  type Metadata = map<string, string>

  datatype ArrowField = ArrowField(name: string, arrowType: ArrowType, nullable: bool, metadata: Metadata)

  datatype Array = Array(arrowType: ArrowType, cells: seq<Value>)

  /** `rows` is explicit because a batch without columns still has a row count. */
  datatype RecordBatch = RecordBatch(fields: seq<ArrowField>, metadata: Metadata, columns: seq<Array>, rows: nat)
  {
    /** What Arrow itself guarantees of every batch. */
    ghost predicate Valid() {
      && |columns| == |fields|
      && forall j :: 0 <= j < |columns| ==>
           columns[j].arrowType == fields[j].arrowType && |columns[j].cells| == rows
    }
  }

  datatype ArrowError =
    | UnsupportedType(column: string)
    | CellMismatch(row: nat, column: string)
    | NoColumns
    | MissingColumn(column: string)
    | WrongType(column: string)
    | MixedSchemas

  // ---------- types ----------

  function ArrowOf(t: DataType): ArrowType {
    match t
    case Int64Type => ArrowInt64
    case Float64Type => ArrowFloat64
    case BoolType => ArrowBoolean
    case Utf8Type => ArrowUtf8
  }

  function NativeOf(t: ArrowType): Option<DataType> {
    match t
    case ArrowInt64 => Some(Int64Type)
    case ArrowFloat64 => Some(Float64Type)
    case ArrowBoolean => Some(BoolType)
    case ArrowUtf8 => Some(Utf8Type)
    case ArrowLargeUtf8 => Some(Utf8Type)
    case ArrowOther => None
  }

  /** `schema_from_record_batch`. */
  method SchemaFromBatch(batch: RecordBatch) returns (r: Result<Schema, ArrowError>)
    ensures r.Ok? <==> forall j :: 0 <= j < |batch.fields| ==> !batch.fields[j].arrowType.ArrowOther?
    ensures r.Err? ==>
      exists j :: 0 <= j < |batch.fields|
        && batch.fields[j].arrowType.ArrowOther? && r.error == UnsupportedType(batch.fields[j].name)
        && forall i :: 0 <= i < j ==> !batch.fields[i].arrowType.ArrowOther?
    ensures r.Ok? ==> |r.value.fields| == |batch.fields|
    ensures r.Ok? ==> forall j :: 0 <= j < |batch.fields| ==>
      && r.value.fields[j].name == batch.fields[j].name
      && Some(r.value.fields[j].dataType) == NativeOf(batch.fields[j].arrowType)
  {
    var fields: seq<Field> := [];
    for j := 0 to |batch.fields|
      invariant |fields| == j
      invariant forall i :: 0 <= i < j ==>
        && fields[i].name == batch.fields[i].name
        && Some(fields[i].dataType) == NativeOf(batch.fields[i].arrowType)
    {
      var native := NativeOf(batch.fields[j].arrowType);
      if native.None? {
        return Err(UnsupportedType(batch.fields[j].name));
      }
      fields := fields + [Field(batch.fields[j].name, native.value)];
    }
    r := Ok(Schema(fields));
  }

  // ---------- dataset to batch ----------

  /** The cell of a row at a column; short rows read as null. */
  function CellAt(row: Row, j: nat): Value {
    if j < |row| then row[j] else Null
  }

  ghost predicate ColumnFits(ds: DataSet, j: nat)
    requires j < |ds.schema.fields|
  {
    forall i :: 0 <= i < |ds.rows| ==> Fits(CellAt(ds.rows[i], j), ds.schema.fields[j].dataType)
  }

  ghost predicate WellTyped(ds: DataSet) {
    forall j: nat :: j < |ds.schema.fields| ==> ColumnFits(ds, j)
  }

  function ColumnOf(ds: DataSet, j: nat): Array
    requires j < |ds.schema.fields|
  {
    Array(ArrowOf(ds.schema.fields[j].dataType),
          seq(|ds.rows|, i requires 0 <= i < |ds.rows| => CellAt(ds.rows[i], j)))
  }

  function BatchOf(ds: DataSet): (b: RecordBatch)
    ensures b.Valid()
  {
    var n := |ds.schema.fields|;
    RecordBatch(seq(n, j requires 0 <= j < n =>
                  ArrowField(ds.schema.fields[j].name, ArrowOf(ds.schema.fields[j].dataType), true, map[])),
                map[],
                seq(n, j requires 0 <= j < n => ColumnOf(ds, j)),
                |ds.rows|)
  }

  /** One column: its cells so far pushed row by row, or the complaint about the first that does not fit. */
  method PushColumn(ds: DataSet, j: nat) returns (r: Result<Array, ArrowError>)
    requires j < |ds.schema.fields|
    ensures r.Ok? <==> ColumnFits(ds, j)
    ensures r.Ok? ==> r.value == ColumnOf(ds, j)
    ensures r.Err? ==> r.error == CellMismatch(1, ds.schema.fields[j].name)
  {
    var field := ds.schema.fields[j];
    var cells: seq<Value> := [];
    for i := 0 to |ds.rows|
      invariant |cells| == i
      invariant forall k :: 0 <= k < i ==> cells[k] == CellAt(ds.rows[k], j) && Fits(cells[k], field.dataType)
    {
      var cell := if j < |ds.rows[i]| then ds.rows[i][j] else Null;
      match cell {
        case Null =>
        case Int64(_) =>
          if field.dataType != Int64Type { return Err(CellMismatch(1, field.name)); }
        case Float64(_) =>
          if field.dataType != Float64Type { return Err(CellMismatch(1, field.name)); }
        case Bool(_) =>
          if field.dataType != BoolType { return Err(CellMismatch(1, field.name)); }
        case Utf8(_) =>
          if field.dataType != Utf8Type { return Err(CellMismatch(1, field.name)); }
      }
      cells := cells + [cell];
    }
    r := Ok(Array(ArrowOf(field.dataType), cells));
    assert r.value.cells == ColumnOf(ds, j).cells;
  }

  /** What a slot of an array of the given type can hold. */
  predicate Holds(t: DataType, v: Value) {
    v.Null? ||
      match t
      case Int64Type => v.Int64?
      case Float64Type => v.Float64?
      case BoolType => v.Bool?
      case Utf8Type => v.Utf8?
  }

  lemma WellTypedMeans(ds: DataSet)
    ensures WellTyped(ds) <==>
      forall i, j :: 0 <= i < |ds.rows| && 0 <= j < |ds.schema.fields| && j < |ds.rows[i]| ==>
        Holds(ds.schema.fields[j].dataType, ds.rows[i][j])
  {
    forall i, j: nat | 0 <= i < |ds.rows| && j < |ds.schema.fields|
      ensures Fits(CellAt(ds.rows[i], j), ds.schema.fields[j].dataType) <==>
        (j < |ds.rows[i]| ==> Holds(ds.schema.fields[j].dataType, ds.rows[i][j]))
    {}
    if WellTyped(ds) {
      forall i, j | 0 <= i < |ds.rows| && 0 <= j < |ds.schema.fields| && j < |ds.rows[i]|
        ensures Holds(ds.schema.fields[j].dataType, ds.rows[i][j])
      {
        assert ColumnFits(ds, j);
      }
    }
  }

  /**
    `dataset_to_record_batch`: succeeds exactly when there is a column and every cell that is
    present and not null has its column's type; otherwise it names the first column that fails.
   */
  method DatasetToRecordBatch(ds: DataSet) returns (r: Result<RecordBatch, ArrowError>)
    ensures r.Ok? <==> ds.schema.fields != [] && WellTyped(ds)
    ensures r.Ok? <==>
      && ds.schema.fields != []
      && forall i, j :: 0 <= i < |ds.rows| && 0 <= j < |ds.schema.fields| && j < |ds.rows[i]| ==>
           Holds(ds.schema.fields[j].dataType, ds.rows[i][j])
    ensures r.Ok? ==> r.value == BatchOf(ds)
    ensures r.Ok? ==> |r.value.columns| == |ds.schema.fields| && r.value.metadata == map[] && r.value.rows == |ds.rows|
    ensures r.Ok? ==> forall j :: 0 <= j < |ds.schema.fields| ==>
      var field := r.value.fields[j];
      field.name == ds.schema.fields[j].name && field.nullable && field.metadata == map[]
    ensures r.Ok? ==> forall i, j :: 0 <= i < |ds.rows| && 0 <= j < |ds.schema.fields| ==>
      r.value.columns[j].cells[i] == if j < |ds.rows[i]| then ds.rows[i][j] else Null
    ensures r.Err? && ds.schema.fields != [] ==>
      exists j: nat :: j < |ds.schema.fields| && !ColumnFits(ds, j)
        && r.error == CellMismatch(1, ds.schema.fields[j].name)
        && forall k: nat :: k < j ==> ColumnFits(ds, k)
  {
    WellTypedMeans(ds);
    var fields: seq<ArrowField> := [];
    var columns: seq<Array> := [];
    for j := 0 to |ds.schema.fields|
      invariant |fields| == |columns| == j
      invariant forall k: nat :: k < j ==>
        ColumnFits(ds, k) && columns[k] == ColumnOf(ds, k) && fields[k] == BatchOf(ds).fields[k]
    {
      var column := PushColumn(ds, j);
      if column.Err? {
        return Err(column.error);
      }
      columns := columns + [column.value];
      var field := ds.schema.fields[j];
      fields := fields + [ArrowField(field.name, ArrowOf(field.dataType), true, map[])];
    }
    if columns == [] {
      return Err(NoColumns);
    }
    assert fields == BatchOf(ds).fields && columns == BatchOf(ds).columns;
    r := Ok(RecordBatch(fields, map[], columns, |ds.rows|));
  }

  // ---------- batch to dataset ----------

  function ColumnNames(fields: seq<ArrowField>): (names: seq<string>)
    ensures |names| == |fields| && forall i :: 0 <= i < |fields| ==> names[i] == fields[i].name
  {
    seq(|fields|, i requires 0 <= i < |fields| => fields[i].name)
  }

  /** The first batch column of the given name. */
  function BatchIndex(fields: seq<ArrowField>, name: string): (r: Option<nat>)
    ensures r.Some? ==> r.value < |fields| && fields[r.value].name == name
    ensures r.Some? ==> forall i :: 0 <= i < r.value ==> fields[i].name != name
    ensures r.None? ==> forall i :: 0 <= i < |fields| ==> fields[i].name != name
  {
    FirstNamed(ColumnNames(fields), name, 0)
  }

  /** A field can be read: its column is there, and has its type unless there is no row to read. */
  ghost predicate FieldReads(batch: RecordBatch, f: Field)
    requires batch.Valid()
  {
    var at := BatchIndex(batch.fields, f.name);
    at.Some? && (batch.rows > 0 ==> NativeOf(batch.fields[at.value].arrowType) == Some(f.dataType))
  }

  ghost predicate Reads(batch: RecordBatch, schema: Schema)
    requires batch.Valid()
  {
    forall j :: 0 <= j < |schema.fields| ==> FieldReads(batch, schema.fields[j])
  }

  predicate Present(batch: RecordBatch, f: Field) {
    BatchIndex(batch.fields, f.name).Some?
  }

  /**
    The complaint about a schema that cannot be read: the first missing column if there is one, else
    the first column of another type.
   */
  ghost predicate ReadFault(batch: RecordBatch, schema: Schema, e: ArrowError)
    requires batch.Valid()
  {
    exists j :: 0 <= j < |schema.fields| &&
      var f := schema.fields[j];
      if !Present(batch, f) then
        && e == MissingColumn(f.name)
        && forall k :: 0 <= k < j ==> Present(batch, schema.fields[k])
      else
        && e == WrongType(f.name) && !FieldReads(batch, f)
        && (forall k :: 0 <= k < |schema.fields| ==> Present(batch, schema.fields[k]))
        && forall k :: 0 <= k < j ==> FieldReads(batch, schema.fields[k])
  }

  /**
    Which columns a field can be read from: text from either of Arrow's text types, anything else from its
    own type alone; in a batch without rows from any.
   */
  lemma FieldReadsIff(batch: RecordBatch, f: Field)
    requires batch.Valid() && BatchIndex(batch.fields, f.name).Some?
    ensures var t := batch.fields[BatchIndex(batch.fields, f.name).value].arrowType;
      FieldReads(batch, f) <==>
        || batch.rows == 0
        || (f.dataType == Int64Type && t == ArrowInt64)
        || (f.dataType == Float64Type && t == ArrowFloat64)
        || (f.dataType == BoolType && t == ArrowBoolean)
        || (f.dataType == Utf8Type && (t == ArrowUtf8 || t == ArrowLargeUtf8))
  {
    var t := batch.fields[BatchIndex(batch.fields, f.name).value].arrowType;
    assert t.ArrowOther? ==> NativeOf(t).None?;
  }

  ghost function RowAt(batch: RecordBatch, schema: Schema, i: nat): (row: Row)
    requires batch.Valid() && Reads(batch, schema) && i < batch.rows
    ensures |row| == |schema.fields|
  {
    seq(|schema.fields|, j requires 0 <= j < |schema.fields| =>
      assert FieldReads(batch, schema.fields[j]);
      batch.columns[BatchIndex(batch.fields, schema.fields[j].name).value].cells[i])
  }

  ghost function RowsOf(batch: RecordBatch, schema: Schema): (rows: seq<Row>)
    requires batch.Valid() && Reads(batch, schema)
    ensures |rows| == batch.rows && forall i :: 0 <= i < batch.rows ==> rows[i] == RowAt(batch, schema, i)
  {
    seq(batch.rows, i requires 0 <= i < batch.rows => RowAt(batch, schema, i))
  }

  /**
    `record_batch_to_dataset`: columns are looked up by name, then read row by row. A missing column
    fails at once; a column of another type fails at the first row, so not in an empty batch.
   */
  method RecordBatchToDataset(batch: RecordBatch, schema: Schema) returns (r: Result<DataSet, ArrowError>)
    requires batch.Valid()
    ensures r.Ok? <==> Reads(batch, schema)
    ensures r.Ok? ==> r.value == DataSet(schema, RowsOf(batch, schema))
    ensures r.Err? ==> ReadFault(batch, schema, r.error)
  {
    var at: seq<nat> := [];
    for j := 0 to |schema.fields|
      invariant |at| == j
      invariant forall k :: 0 <= k < j ==> BatchIndex(batch.fields, schema.fields[k].name) == Some(at[k])
    {
      var index := BatchIndex(batch.fields, schema.fields[j].name);
      if index.None? {
        assert !Present(batch, schema.fields[j]);
        return Err(MissingColumn(schema.fields[j].name));
      }
      at := at + [index.value];
    }
    var rows: seq<Row> := [];
    for i := 0 to batch.rows
      invariant |rows| == i
      invariant i > 0 ==> Reads(batch, schema)
      invariant forall k :: 0 <= k < i ==> |rows[k]| == |schema.fields|
      invariant forall k, j :: 0 <= k < i && 0 <= j < |schema.fields| ==> rows[k][j] == batch.columns[at[j]].cells[k]
    {
      var row: Row := [];
      for j := 0 to |schema.fields|
        invariant |row| == j
        invariant forall k :: 0 <= k < j ==>
          FieldReads(batch, schema.fields[k]) && row[k] == batch.columns[at[k]].cells[i]
      {
        var column := batch.columns[at[j]];
        if NativeOf(column.arrowType) != Some(schema.fields[j].dataType) {
          assert Present(batch, schema.fields[j]) && !FieldReads(batch, schema.fields[j]);
          return Err(WrongType(schema.fields[j].name));
        }
        row := row + [column.cells[i]];
      }
      rows := rows + [row];
    }
    assert Reads(batch, schema);
    forall k | 0 <= k < batch.rows ensures rows[k] == RowAt(batch, schema, k) {}
    assert rows == RowsOf(batch, schema);
    r := Ok(DataSet(schema, rows));
  }

  // ---------- the round trip ----------

  /** The column a field's name is read back from. */
  ghost function Source(schema: Schema, j: nat): (k: nat)
    requires j < |schema.fields|
    ensures k <= j && schema.fields[k].name == schema.fields[j].name
    ensures schema.DistinctNames() ==> k == j
  {
    var found := schema.IndexOf(schema.fields[j].name);
    if found.Some? then found.value else j
  }

  lemma SourceIsBatchIndex(ds: DataSet, j: nat)
    requires j < |ds.schema.fields|
    ensures BatchIndex(BatchOf(ds).fields, ds.schema.fields[j].name) == Some(Source(ds.schema, j))
  {
    var fields := BatchOf(ds).fields;
    var k := BatchIndex(fields, ds.schema.fields[j].name);
    assert fields[j].name == ds.schema.fields[j].name;
    assert forall i :: 0 <= i < |fields| ==> fields[i].name == ds.schema.fields[i].name;
  }

  /**
    The round trip, for every dataset: it can be read back exactly when fields of the same name
    have the same type (or there are no rows), and each cell comes back from the first column of
    its name, with short rows padded by nulls and surplus cells dropped.
   */
  lemma RoundTrip(ds: DataSet)
    ensures Reads(BatchOf(ds), ds.schema) <==>
      ds.rows == [] || forall j: nat :: j < |ds.schema.fields| ==>
        ds.schema.fields[Source(ds.schema, j)].dataType == ds.schema.fields[j].dataType
    ensures Reads(BatchOf(ds), ds.schema) ==>
      forall i, j: nat :: 0 <= i < |ds.rows| && j < |ds.schema.fields| ==>
        RowAt(BatchOf(ds), ds.schema, i)[j] == CellAt(ds.rows[i], Source(ds.schema, j))
  {
    var batch := BatchOf(ds);
    forall j: nat | j < |ds.schema.fields|
      ensures FieldReads(batch, ds.schema.fields[j]) <==>
        ds.rows == [] || ds.schema.fields[Source(ds.schema, j)].dataType == ds.schema.fields[j].dataType
    {
      SourceIsBatchIndex(ds, j);
      var k := Source(ds.schema, j);
      assert NativeOf(batch.fields[k].arrowType) == Some(ds.schema.fields[k].dataType);
    }
    if Reads(batch, ds.schema) {
      forall i, j: nat | 0 <= i < |ds.rows| && j < |ds.schema.fields|
        ensures RowAt(batch, ds.schema, i)[j] == CellAt(ds.rows[i], Source(ds.schema, j))
      {
        SourceIsBatchIndex(ds, j);
      }
    }
  }

  /** Every row cut or padded to the schema's width. */
  function Normalized(ds: DataSet): DataSet {
    var n := |ds.schema.fields|;
    DataSet(ds.schema,
            seq(|ds.rows|, i requires 0 <= i < |ds.rows| => seq(n, j requires 0 <= j < n => CellAt(ds.rows[i], j))))
  }

  /** With distinct names the round trip is normalization, and the identity on rectangular data. */
  lemma RoundTripDistinct(ds: DataSet)
    requires ds.schema.DistinctNames()
    ensures Reads(BatchOf(ds), ds.schema)
    ensures DataSet(ds.schema, RowsOf(BatchOf(ds), ds.schema)) == Normalized(ds)
    ensures ds.Rectangular() ==> Normalized(ds) == ds
  {
    RoundTrip(ds);
    var rows := RowsOf(BatchOf(ds), ds.schema);
    forall i | 0 <= i < |ds.rows| ensures rows[i] == Normalized(ds).rows[i] {
      assert forall j: nat :: j < |ds.schema.fields| ==> rows[i][j] == CellAt(ds.rows[i], j);
    }
    assert rows == Normalized(ds).rows;
    if ds.Rectangular() {
      forall i | 0 <= i < |ds.rows| ensures Normalized(ds).rows[i] == ds.rows[i] {}
      assert Normalized(ds).rows == ds.rows;
    }
  }

  ghost predicate RoundTrips(ds: DataSet) {
    Reads(BatchOf(ds), ds.schema) && DataSet(ds.schema, RowsOf(BatchOf(ds), ds.schema)) == ds
  }

  /** Some value of each type. */
  function Sample(t: DataType): (v: Value)
    ensures v != Null && Fits(v, t)
  {
    match t
    case Int64Type => Int64(0)
    case Float64Type => Float64(Finite(0))
    case BoolType => Bool(false)
    case Utf8Type => Utf8("")
  }

  /** One row, null but for column `j`. */
  function Spike(schema: Schema, j: nat): DataSet
    requires j < |schema.fields|
  {
    var n := |schema.fields|;
    DataSet(schema, [seq(n, k requires 0 <= k < n => if k == j then Sample(schema.fields[k].dataType) else Null)])
  }

  /**
    Distinct names are exactly what it takes: a schema carries all its rectangular, well-typed
    datasets through the round trip if and only if no two fields share a name.
   */
  lemma LosslessIffDistinctNames(schema: Schema)
    ensures schema.DistinctNames() <==>
      forall ds: DataSet :: ds.schema == schema && ds.Rectangular() && WellTyped(ds) ==> RoundTrips(ds)
  {
    if schema.DistinctNames() {
      forall ds: DataSet | ds.schema == schema && ds.Rectangular() ensures RoundTrips(ds) {
        RoundTripDistinct(ds);
      }
    } else {
      var i, j :| 0 <= i < j < |schema.fields| && schema.fields[i].name == schema.fields[j].name;
      var ds := Spike(schema, j);
      RoundTrip(ds);
      assert WellTyped(ds) && ds.Rectangular();
      assert Source(schema, j) < j;
      assert CellAt(ds.rows[0], Source(schema, j)) == Null;
      if Reads(BatchOf(ds), schema) {
        assert RowAt(BatchOf(ds), schema, 0)[j] == Null != ds.rows[0][j];
      }
      assert !RoundTrips(ds);
    }
  }

  /** The schema read off a dataset's batch is the dataset's own. */
  lemma {:induction false} SchemaSurvives(ds: DataSet, read: Schema)
    requires |read.fields| == |BatchOf(ds).fields|
    requires forall j :: 0 <= j < |read.fields| ==>
      && read.fields[j].name == BatchOf(ds).fields[j].name
      && Some(read.fields[j].dataType) == NativeOf(BatchOf(ds).fields[j].arrowType)
    ensures read == ds.schema
  {
    forall j | 0 <= j < |read.fields| ensures read.fields[j] == ds.schema.fields[j] {}
    assert read.fields == ds.schema.fields;
  }

  // ---------- several batches ----------

  /** Arrow's concatenation of two batches of one schema. */
  function Join(a: RecordBatch, b: RecordBatch): (c: RecordBatch)
    requires a.Valid() && b.Valid() && a.fields == b.fields
    ensures c.Valid() && c.fields == a.fields
  {
    RecordBatch(a.fields, a.metadata,
                seq(|a.columns|, j requires 0 <= j < |a.columns| =>
                  Array(a.columns[j].arrowType, a.columns[j].cells + b.columns[j].cells)),
                a.rows + b.rows)
  }

  /** Equality of Arrow schemas, nullability and metadata included. */
  predicate SameSchema(a: RecordBatch, b: RecordBatch) {
    a.fields == b.fields && a.metadata == b.metadata
  }

  ghost predicate OneSchema(batches: seq<RecordBatch>) {
    forall i :: 0 <= i < |batches| ==> batches[i].Valid() && SameSchema(batches[i], batches[0])
  }

  /** `concat_batches`. */
  function Merge(batches: seq<RecordBatch>): (b: RecordBatch)
    requires batches != [] && OneSchema(batches)
    ensures b.Valid() && b.fields == batches[0].fields
  {
    if |batches| == 1 then batches[0]
    else
      assert batches[1].Valid();
      Join(batches[0], Merge(batches[1..]))
  }

  ghost predicate EachReads(batches: seq<RecordBatch>, schema: Schema) {
    forall i :: 0 <= i < |batches| ==> batches[i].Valid() && Reads(batches[i], schema)
  }

  ghost function ConcatRows(batches: seq<RecordBatch>, schema: Schema): seq<Row>
    requires EachReads(batches, schema)
  {
    if batches == [] then [] else RowsOf(batches[0], schema) + ConcatRows(batches[1..], schema)
  }

  lemma EachReadsPart(batches: seq<RecordBatch>, schema: Schema, from: nat, to: nat)
    requires EachReads(batches, schema) && from <= to <= |batches|
    ensures EachReads(batches[from..to], schema)
  {
  }

  lemma ConcatCons(batch: RecordBatch, rest: seq<RecordBatch>, schema: Schema)
    requires EachReads([batch] + rest, schema) && batch.Valid() && Reads(batch, schema) && EachReads(rest, schema)
    ensures ConcatRows([batch] + rest, schema) == RowsOf(batch, schema) + ConcatRows(rest, schema)
  {
    assert ([batch] + rest)[1..] == rest;
  }

  lemma Regroup(a: seq<Row>, b: seq<Row>, c: seq<Row>)
    ensures a + (b + c) == (a + b) + c
  {
  }

  /** In the concatenation the rows of the `n`-th batch stand behind those of the batches before it. */
  lemma {:induction false} ConcatSplits(batches: seq<RecordBatch>, schema: Schema, n: nat)
    requires EachReads(batches, schema) && n < |batches|
    ensures EachReads(batches[..n], schema) && EachReads(batches[n + 1..], schema)
    ensures ConcatRows(batches, schema) ==
      ConcatRows(batches[..n], schema) + (RowsOf(batches[n], schema) + ConcatRows(batches[n + 1..], schema))
    decreases |batches|
  {
    EachReadsPart(batches, schema, 0, n);
    EachReadsPart(batches, schema, n + 1, |batches|);
    EachReadsPart(batches, schema, 1, |batches|);
    var tail := batches[1..];
    assert batches == [batches[0]] + tail;
    if n == 0 {
      ConcatCons(batches[0], tail, schema);
    } else {
      ConcatSplits(tail, schema, n - 1);
      assert tail[n - 1] == batches[n] && tail[n..] == batches[n + 1..];
      assert batches[..n] == [batches[0]] + tail[..n - 1];
      ConcatCons(batches[0], tail, schema);
      ConcatCons(batches[0], tail[..n - 1], schema);
      Regroup(RowsOf(batches[0], schema), ConcatRows(tail[..n - 1], schema),
              RowsOf(batches[n], schema) + ConcatRows(batches[n + 1..], schema));
    }
  }

  lemma JoinReads(a: RecordBatch, b: RecordBatch, schema: Schema)
    requires a.Valid() && b.Valid() && a.fields == b.fields
    ensures Reads(Join(a, b), schema) <==> Reads(a, schema) && Reads(b, schema)
    ensures Reads(Join(a, b), schema) ==> RowsOf(Join(a, b), schema) == RowsOf(a, schema) + RowsOf(b, schema)
  {
    var c := Join(a, b);
    forall j | 0 <= j < |schema.fields|
      ensures FieldReads(c, schema.fields[j]) <==> FieldReads(a, schema.fields[j]) && FieldReads(b, schema.fields[j])
    {}
    if Reads(c, schema) {
      forall i: nat | i < c.rows
        ensures RowAt(c, schema, i) == if i < a.rows then RowAt(a, schema, i) else RowAt(b, schema, i - a.rows)
      {}
      assert RowsOf(c, schema) == RowsOf(a, schema) + RowsOf(b, schema);
    }
  }

  /** Reading a merged batch is reading each batch alone and concatenating, failures included. */
  lemma {:induction false} MergeReads(batches: seq<RecordBatch>, schema: Schema)
    requires batches != [] && OneSchema(batches)
    ensures Reads(Merge(batches), schema) <==> EachReads(batches, schema)
    ensures EachReads(batches, schema) ==> RowsOf(Merge(batches), schema) == ConcatRows(batches, schema)
  {
    if |batches| == 1 {
      if EachReads(batches, schema) {
        assert ConcatRows(batches[1..], schema) == [];
      }
    } else {
      assert batches[1].Valid();
      MergeReads(batches[1..], schema);
      JoinReads(batches[0], Merge(batches[1..]), schema);
      assert EachReads(batches, schema) <==> Reads(batches[0], schema) && EachReads(batches[1..], schema) by {
        if Reads(batches[0], schema) && EachReads(batches[1..], schema) {
          forall i | 0 <= i < |batches| ensures Reads(batches[i], schema) {
            if i > 0 {
              assert batches[i] == batches[1..][i - 1];
            }
          }
        }
        if EachReads(batches, schema) {
          forall i | 0 <= i < |batches[1..]| ensures Reads(batches[1..][i], schema) {
            assert batches[1..][i] == batches[i + 1];
          }
        }
      }
    }
  }

  /**
    `record_batches_to_dataset`: no batch gives no rows; otherwise the batches must share one Arrow
    schema, and the result is the concatenation, in order, of reading each batch alone.
   */
  method RecordBatchesToDataset(batches: seq<RecordBatch>, schema: Schema) returns (r: Result<DataSet, ArrowError>)
    requires forall i :: 0 <= i < |batches| ==> batches[i].Valid()
    ensures r.Ok? <==> OneSchema(batches) && EachReads(batches, schema)
    ensures r.Ok? ==> r.value == DataSet(schema, ConcatRows(batches, schema))
    ensures r == Err(MixedSchemas) <==> !OneSchema(batches)
    ensures r.Err? && OneSchema(batches) ==> batches != [] && ReadFault(Merge(batches), schema, r.error)
  {
    if batches == [] {
      return Ok(DataSet(schema, []));
    }
    for i := 1 to |batches|
      invariant forall k :: 0 <= k < i ==> SameSchema(batches[k], batches[0])
    {
      if !SameSchema(batches[i], batches[0]) {
        return Err(MixedSchemas);
      }
    }
    var merged := if |batches| == 1 then batches[0] else Merge(batches);
    MergeReads(batches, schema);
    r := RecordBatchToDataset(merged, schema);
  }
}
