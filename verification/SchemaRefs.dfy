/**
  `resolve_schema_refs`: every `<name>_ref` key of every object is replaced by a key `<name>`
  holding the schema that the reference's path loads.

  Key order inside an object is the document's own; it is a parameter, and the results say what
  holds for every order. Loading is a finite map from paths to schemas.
 */
module SchemaRefs {
  import opened DataModel
  import opened JsonTree

  datatype ResolveError = MissingKey(key: string) | NotAString(key: string) | LoadFailed(path: string)

  type Schemas = map<string, Schema>

  const SUFFIX: string := "_ref"

  predicate IsRef(key: string) {
    |key| >= 4 && key[|key| - 4..] == SUFFIX
  }

  function Strip(key: string): string
    requires IsRef(key)
  {
    key[..|key| - 4]
  }

  lemma StripInverse(key: string)
    ensures IsRef(key + SUFFIX) && Strip(key + SUFFIX) == key
    ensures IsRef(key) ==> Strip(key) + SUFFIX == key
  {
  }

  function TypeName(t: DataType): string {
    match t
    case Int64Type => "Int64"
    case Float64Type => "Float64"
    case BoolType => "Bool"
    case Utf8Type => "Utf8"
  }

  function EmbedField(f: Field): Json {
    JObject(map["name" := JString(f.name), "data_type" := JString(TypeName(f.dataType))])
  }

  /** `serde_json::to_value` of a schema. */
  function Embed(s: Schema): Json {
    JObject(map["fields" := JArray(seq(|s.fields|, i requires 0 <= i < |s.fields| => EmbedField(s.fields[i])))])
  }

  // ---------- reading a schema back ----------

  /** The deserializer of `load_schema`: the four variant names. */
  function ReadType(v: Json): Option<DataType> {
    if v == JString("Int64") then Some(Int64Type)
    else if v == JString("Float64") then Some(Float64Type)
    else if v == JString("Bool") then Some(BoolType)
    else if v == JString("Utf8") then Some(Utf8Type)
    else None
  }

  /** A field: an object with a name and a data type; serde skips other keys. */
  function ReadField(v: Json): Option<Field> {
    if !v.JObject? || "name" !in v.fields || "data_type" !in v.fields then None
    else
      var name, t := v.fields["name"], ReadType(v.fields["data_type"]);
      if !name.JString? || t.None? then None else Some(Field(name.s, t.value))
  }

  function ReadFields(items: seq<Json>): Option<seq<Field>> {
    if items == [] then Some([])
    else
      var first, rest := ReadField(items[0]), ReadFields(items[1..]);
      if first.None? || rest.None? then None else Some([first.value] + rest.value)
  }

  function ReadSchema(v: Json): Option<Schema> {
    if !v.JObject? || "fields" !in v.fields || !v.fields["fields"].JArray? then None
    else
      var fields := ReadFields(v.fields["fields"].items);
      if fields.None? then None else Some(Schema(fields.value))
  }

  lemma {:induction false} FieldsReadBack(items: seq<Json>, fields: seq<Field>)
    requires |items| == |fields| && forall i :: 0 <= i < |items| ==> ReadField(items[i]) == Some(fields[i])
    ensures ReadFields(items) == Some(fields)
  {
    if items != [] {
      FieldsReadBack(items[1..], fields[1..]);
      assert fields == [fields[0]] + fields[1..];
    }
  }

  lemma FieldReadsBack(f: Field)
    ensures ReadField(EmbedField(f)) == Some(f)
  {
    var name := TypeName(f.dataType);
    assert "Int64"[0] == 'I' && "Float64"[0] == 'F' && "Bool"[0] == 'B' && "Utf8"[0] == 'U';
    assert ReadType(JString(name)) == Some(f.dataType);
  }

  /** An embedded schema deserializes to itself, and nothing else stands in it. */
  lemma EmbedReadsBack(s: Schema)
    ensures ReadSchema(Embed(s)) == Some(s)
    ensures Embed(s).fields.Keys == {"fields"}
    ensures forall i :: 0 <= i < |s.fields| ==>
      Embed(s).fields["fields"].items[i].fields.Keys == {"name", "data_type"}
  {
    var items := Embed(s).fields["fields"].items;
    forall i | 0 <= i < |s.fields| ensures ReadField(items[i]) == Some(s.fields[i]) {
      FieldReadsBack(s.fields[i]);
    }
    FieldsReadBack(items, s.fields);
  }

  /** So different schemas embed differently. */
  lemma EmbedInjective(a: Schema, b: Schema)
    requires Embed(a) == Embed(b)
    ensures a == b
  {
    EmbedReadsBack(a);
    EmbedReadsBack(b);
  }

  /** Some object in the tree has a reference key. */
  ghost predicate HasRef(v: Json) {
    match v
    case JArray(xs) => exists i :: 0 <= i < |xs| && HasRef(xs[i])
    case JObject(m) => exists k :: k in m && (IsRef(k) || HasRef(m[k]))
    case _ => false
  }

  lemma ArrayHasNoRef(xs: seq<Json>)
    requires forall i :: 0 <= i < |xs| ==> !HasRef(xs[i])
    ensures !HasRef(JArray(xs))
  {
  }

  lemma EmbedHasNoRef(s: Schema)
    ensures !HasRef(Embed(s))
  {
    var m := Embed(s).fields;
    var items := m["fields"].items;
    forall i | 0 <= i < |items| ensures !HasRef(items[i]) {}
    ArrayHasNoRef(items);
    forall k | k in m ensures !IsRef(k) && !HasRef(m[k]) {}
  }

  // ---------- one object, one order ----------

  function Loads(v: Json, schemas: Schemas): bool {
    v.JString? && v.s in schemas
  }

  /** The failure an entry causes when its turn comes. */
  function Fault(key: string, v: Json): ResolveError {
    if v.JString? then LoadFailed(v.s) else NotAString(key)
  }

  /** One iteration of the loop over the reference keys. */
  function ExpandKey(m: map<string, Json>, key: string, schemas: Schemas): Result<map<string, Json>, ResolveError>
    requires IsRef(key)
  {
    if key !in m then Err(MissingKey(key))
    else if Loads(m[key], schemas) then Ok((m - {key})[Strip(key) := Embed(schemas[m[key].s])])
    else Err(Fault(key, m[key]))
  }

  /** The whole loop, over the reference keys in the given order. */
  function ExpandInOrder(m: map<string, Json>, order: seq<string>, schemas: Schemas)
    : Result<map<string, Json>, ResolveError>
    requires forall k :: k in order ==> IsRef(k)
  {
    if order == [] then Ok(m)
    else
      var before := ExpandInOrder(m, order[..|order| - 1], schemas);
      if before.Err? then before else ExpandKey(before.value, order[|order| - 1], schemas)
  }

  /** The reference keys of an object, each once: what the loop walks through. */
  ghost predicate IsRefOrder(order: seq<string>, keys: set<string>) {
    && (forall k :: k in order <==> k in keys && IsRef(k))
    && Distinct(order)
  }

  ghost predicate Distinct(order: seq<string>) {
    forall i, j :: 0 <= i < j < |order| ==> order[i] != order[j]
  }

  /** A doubled reference `x_ref_ref` is met before the `x_ref` that it overwrites. */
  ghost predicate Inverted(order: seq<string>) {
    exists i, j :: 0 <= i < j < |order| && order[i] == order[j] + SUFFIX
  }

  /** The complaint about an overwritten reference: it holds a schema by now, not a path. */
  ghost predicate InvertedFault(order: seq<string>, e: ResolveError) {
    exists i, j :: 0 <= i < j < |order| && order[i] == order[j] + SUFFIX && e == NotAString(order[j])
  }

  /** An object has both `x_ref` and `x_ref_ref`. */
  ghost predicate ClashAt(keys: set<string>) {
    exists k :: k in keys && IsRef(k) && k + SUFFIX in keys
  }

  ghost predicate ClashFaultAt(m: map<string, Json>, e: ResolveError) {
    exists k :: k in m && IsRef(k) && k + SUFFIX in m && e == NotAString(k)
  }

  ghost predicate AllLoad(m: map<string, Json>, schemas: Schemas) {
    forall k :: k in m && IsRef(k) ==> Loads(m[k], schemas)
  }

  /** Does the entry survive expansion: it is no reference, and no reference overrides it. */
  predicate Survives(key: string, m: map<string, Json>) {
    !IsRef(key) && key + SUFFIX !in m
  }

  function References(m: map<string, Json>): set<string> {
    set k | k in m && IsRef(k)
  }

  /** The keys of an object after the reference keys in `done` were expanded. */
  ghost function KeysAfter(m: map<string, Json>, done: set<string>): set<string> {
    (m.Keys - done) + (set k | k in done && IsRef(k) :: Strip(k))
  }

  lemma InKeysAfter(m: map<string, Json>, done: set<string>, j: string)
    requires done <= References(m)
    ensures j in KeysAfter(m, done) <==> j + SUFFIX in done || (j in m && j !in done)
  {
    StripInverse(j);
    if j in KeysAfter(m, done) && !(j in m && j !in done) {
      var k :| k in done && IsRef(k) && Strip(k) == j;
      StripInverse(k);
    }
  }

  /** The object after the reference keys in `done` were expanded, in closed form. */
  ghost function Expanded(m: map<string, Json>, done: set<string>, schemas: Schemas): map<string, Json>
    requires done <= References(m)
    requires forall k :: k in done ==> Loads(m[k], schemas)
  {
    map j | j in KeysAfter(m, done) ::
      if j + SUFFIX in done then
        assert Loads(m[j + SUFFIX], schemas);
        Embed(schemas[m[j + SUFFIX].s])
      else InKeysAfter(m, done, j); m[j]
  }

  /** What the next iteration does to the closed form. */
  lemma ExpandStep(m: map<string, Json>, done: set<string>, key: string, schemas: Schemas)
    requires done <= References(m) && key in References(m) && key !in done
    requires forall k :: k in done ==> Loads(m[k], schemas)
    ensures var next := ExpandKey(Expanded(m, done, schemas), key, schemas);
      if key + SUFFIX in done then next == Err(NotAString(key))
      else if Loads(m[key], schemas) then next == Ok(Expanded(m, done + {key}, schemas))
      else next == Err(Fault(key, m[key]))
  {
    var cur := Expanded(m, done, schemas);
    InKeysAfter(m, done, key);
    if key + SUFFIX !in done && Loads(m[key], schemas) {
      var next := (cur - {key})[Strip(key) := Embed(schemas[m[key].s])];
      var goal := Expanded(m, done + {key}, schemas);
      forall j ensures j in next <==> j in goal {
        InKeysAfter(m, done, j);
        InKeysAfter(m, done + {key}, j);
        StripInverse(j);
        StripInverse(key);
      }
      forall j | j in goal ensures next[j] == goal[j] {
        InKeysAfter(m, done, j);
        InKeysAfter(m, done + {key}, j);
        StripInverse(j);
        StripInverse(key);
      }
      assert next == goal;
    }
  }

  lemma InvertedSnoc(prefix: seq<string>, key: string)
    ensures Inverted(prefix + [key]) <==> Inverted(prefix) || key + SUFFIX in prefix
  {
    var order := prefix + [key];
    if Inverted(prefix) {
      var i, j :| 0 <= i < j < |prefix| && prefix[i] == prefix[j] + SUFFIX;
      assert order[i] == order[j] + SUFFIX;
    } else if key + SUFFIX in prefix {
      var i :| 0 <= i < |prefix| && prefix[i] == key + SUFFIX;
      assert order[i] == order[|prefix|] + SUFFIX;
    }
  }

  ghost predicate LoadsEach(order: seq<string>, m: map<string, Json>, schemas: Schemas) {
    forall k :: k in order ==> k in m && IsRef(k) && Loads(m[k], schemas)
  }

  ghost predicate SameFields(a: map<string, Json>, b: map<string, Json>) {
    a.Keys == b.Keys && forall j :: j in a && j in b ==> a[j] == b[j]
  }

  lemma SameFieldsEqual(a: map<string, Json>, b: map<string, Json>)
    requires SameFields(a, b)
    ensures a == b
  {
    assert forall j :: j in a <==> j in a.Keys;
    assert forall j :: j in b <==> j in b.Keys;
  }

  ghost function Elements(order: seq<string>): (s: set<string>)
    ensures forall k :: k in s <==> k in order
  {
    set k | k in order
  }

  ghost predicate ExactOutcome(m: map<string, Json>, order: seq<string>, schemas: Schemas,
                               r: Result<map<string, Json>, ResolveError>)
  {
    && (r.Ok? <==> !Inverted(order) && LoadsEach(order, m, schemas))
    && (r.Ok? ==> SameFields(r.value, Expanded(m, Elements(order), schemas)))
    && (r.Err? ==> InvertedFault(order, r.error) || OwnFault(order, m, schemas, r.error))
  }

  /** The complaint about a reference that does not load. */
  ghost predicate OwnFault(order: seq<string>, m: map<string, Json>, schemas: Schemas, e: ResolveError) {
    exists k :: k in order && k in m && !Loads(m[k], schemas) && e == Fault(k, m[k])
  }

  lemma InvertedFaultSnoc(prefix: seq<string>, key: string, e: ResolveError)
    requires InvertedFault(prefix, e) || (key + SUFFIX in prefix && e == NotAString(key))
    ensures InvertedFault(prefix + [key], e)
  {
    var order := prefix + [key];
    if InvertedFault(prefix, e) {
      var i, j :| 0 <= i < j < |prefix| && prefix[i] == prefix[j] + SUFFIX && e == NotAString(prefix[j]);
      assert order[i] == order[j] + SUFFIX && e == NotAString(order[j]);
    } else {
      var i :| 0 <= i < |prefix| && prefix[i] == key + SUFFIX;
      assert order[i] == order[|prefix|] + SUFFIX && e == NotAString(order[|prefix|]);
    }
  }

  lemma ExactSnoc(m: map<string, Json>, prefix: seq<string>, key: string, schemas: Schemas,
                  before: Result<map<string, Json>, ResolveError>)
    requires forall k :: k in prefix + [key] ==> k in m && IsRef(k)
    requires key !in prefix && ExactOutcome(m, prefix, schemas, before)
    ensures ExactOutcome(m, prefix + [key], schemas,
              if before.Err? then before else ExpandKey(before.value, key, schemas))
  {
    var order := prefix + [key];
    InvertedSnoc(prefix, key);
    assert key in order && forall k :: k in prefix ==> k in order;
    if before.Ok? {
      var done := Elements(prefix);
      SameFieldsEqual(before.value, Expanded(m, done, schemas));
      ExpandStep(m, done, key, schemas);
      assert Elements(order) == done + {key};
      if key + SUFFIX in prefix {
        InvertedFaultSnoc(prefix, key, NotAString(key));
      }
    } else if InvertedFault(prefix, before.error) {
      InvertedFaultSnoc(prefix, key, before.error);
    }
  }

  /**
    The loop, for every order: it succeeds exactly when every reference loads and no doubled
    reference precedes its base; a successful run always ends in the same object; and a failure
    is some reference's own, or the complaint about a reference already overwritten.
   */
  lemma {:induction false} ExpandInOrderExact(m: map<string, Json>, order: seq<string>, schemas: Schemas)
    requires Distinct(order) && (forall k :: k in order ==> k in m && IsRef(k))
    ensures ExactOutcome(m, order, schemas, ExpandInOrder(m, order, schemas))
    decreases |order|
  {
    if order == [] {
      assert Expanded(m, {}, schemas) == m by {
        forall j ensures j in KeysAfter(m, {}) <==> j in m {
          InKeysAfter(m, {}, j);
        }
      }
      assert Elements(order) == {};
    } else {
      var n := |order| - 1;
      assert order == order[..n] + [order[n]];
      ExpandInOrderExact(m, order[..n], schemas);
      ExactSnoc(m, order[..n], order[n], schemas, ExpandInOrder(m, order[..n], schemas));
    }
  }

  /** Once an iteration has failed, its failure is the loop's. */
  lemma {:induction false} FailureEndsLoop(m: map<string, Json>, order: seq<string>, n: nat, schemas: Schemas)
    requires n <= |order| && (forall k :: k in order ==> IsRef(k))
    requires ExpandInOrder(m, order[..n], schemas).Err?
    ensures ExpandInOrder(m, order, schemas) == ExpandInOrder(m, order[..n], schemas)
    decreases |order| - n
  {
    if n == |order| {
      assert order[..n] == order;
    } else {
      assert order[..n + 1][..n] == order[..n];
      FailureEndsLoop(m, order, n + 1, schemas);
    }
  }

  lemma Longest(s: set<string>) returns (x: string)
    requires s != {}
    ensures x in s && forall y :: y in s ==> |y| <= |x|
    decreases |s|
  {
    x :| x in s;
    if s != {x} {
      assert s == (s - {x}) + {x};
      var y := Longest(s - {x});
      if |x| < |y| {
        x := y;
      }
    }
  }

  lemma EnumerateByLength(s: set<string>) returns (order: seq<string>)
    ensures Distinct(order) && forall k :: k in order <==> k in s
    ensures forall i, j :: 0 <= i < j < |order| ==> |order[i]| <= |order[j]|
    decreases |s|
  {
    order := [];
    if s != {} {
      var x := Longest(s);
      var rest := EnumerateByLength(s - {x});
      order := rest + [x];
      forall i | 0 <= i < |rest| ensures rest[i] in s && rest[i] != x {
        assert rest[i] in rest;
      }
    }
  }

  function Reverse(s: seq<string>): (r: seq<string>)
    ensures |r| == |s| && forall i :: 0 <= i < |s| ==> r[i] == s[|s| - 1 - i]
  {
    seq(|s|, i requires 0 <= i < |s| => s[|s| - 1 - i])
  }

  lemma ReverseElements(s: seq<string>)
    ensures forall x :: x in Reverse(s) <==> x in s
  {
    forall x ensures x in Reverse(s) <==> x in s {
      if x in s {
        var i :| 0 <= i < |s| && s[i] == x;
        assert Reverse(s)[|s| - 1 - i] == x;
      }
    }
  }

  lemma ClashGivesInvertedOrder(keys: set<string>) returns (order: seq<string>)
    requires ClashAt(keys)
    ensures IsRefOrder(order, keys) && Inverted(order)
  {
    var up := EnumerateByLength(set k | k in keys && IsRef(k));
    order := Reverse(up);
    ReverseElements(up);
    var k :| k in keys && IsRef(k) && k + SUFFIX in keys;
    StripInverse(k);
    assert k in order && k + SUFFIX in order;
    var i :| 0 <= i < |order| && order[i] == k + SUFFIX;
    var j :| 0 <= j < |order| && order[j] == k;
    assert |up[|up| - 1 - i]| > |up[|up| - 1 - j]|;
    assert i < j;
  }

  /**
    When all references load, every key order succeeds if and only if no object key clashes; some
    order always does.
   */
  lemma EveryOrderSucceedsIffNoClash(m: map<string, Json>, schemas: Schemas)
    requires AllLoad(m, schemas)
    ensures (forall order :: IsRefOrder(order, m.Keys) ==> ExpandInOrder(m, order, schemas).Ok?) <==> !ClashAt(m.Keys)
    ensures exists order :: IsRefOrder(order, m.Keys) && ExpandInOrder(m, order, schemas).Ok?
  {
    forall order | IsRefOrder(order, m.Keys) && !ClashAt(m.Keys) ensures ExpandInOrder(m, order, schemas).Ok? {
      ExpandInOrderExact(m, order, schemas);
    }
    var up := EnumerateByLength(References(m));
    assert IsRefOrder(up, m.Keys) && !Inverted(up);
    ExpandInOrderExact(m, up, schemas);
    if ClashAt(m.Keys) {
      var down := ClashGivesInvertedOrder(m.Keys);
      ExpandInOrderExact(m, down, schemas);
    }
  }

  // ---------- whole documents ----------

  /** Every reference that is looked at can be loaded. Overridden subtrees are not looked at. */
  ghost predicate Resolvable(v: Json, schemas: Schemas) {
    match v
    case JArray(xs) => forall i :: 0 <= i < |xs| ==> Resolvable(xs[i], schemas)
    case JObject(m) =>
      AllLoad(m, schemas) && forall k :: k in m && Survives(k, m) ==> Resolvable(m[k], schemas)
    case _ => true
  }

  /** Some object that is looked at has clashing reference keys. */
  ghost predicate Clash(v: Json) {
    match v
    case JArray(xs) => exists i :: 0 <= i < |xs| && Clash(xs[i])
    case JObject(m) => ClashAt(m.Keys) || exists k :: k in m && Survives(k, m) && Clash(m[k])
    case _ => false
  }

  /** The failure that clashing reference keys of an object that is looked at can cause. */
  ghost predicate ClashFault(v: Json, e: ResolveError) {
    match v
    case JArray(xs) => exists i :: 0 <= i < |xs| && ClashFault(xs[i], e)
    case JObject(m) => ClashFaultAt(m, e) || exists k :: k in m && Survives(k, m) && ClashFault(m[k], e)
    case _ => false
  }

  lemma {:induction false} ClashFaultNeedsClash(v: Json, e: ResolveError)
    requires ClashFault(v, e)
    ensures Clash(v)
  {
    match v {
      case JArray(xs) =>
        var i :| 0 <= i < |xs| && ClashFault(xs[i], e);
        ClashFaultNeedsClash(xs[i], e);
      case JObject(m) =>
        if !ClashFaultAt(m, e) {
          var k :| k in m && Survives(k, m) && ClashFault(m[k], e);
          ClashFaultNeedsClash(m[k], e);
        }
    }
  }

  /** Some object that is looked at has a doubled reference key `x_ref_ref`. */
  ghost predicate HasDoubledRef(v: Json) {
    match v
    case JArray(xs) => exists i :: 0 <= i < |xs| && HasDoubledRef(xs[i])
    case JObject(m) =>
      || (exists k :: k in m && IsRef(k) && IsRef(Strip(k)))
      || (exists k :: k in m && Survives(k, m) && HasDoubledRef(m[k]))
    case _ => false
  }

  /** Some object that is looked at holds a reference that fails in the given way. */
  ghost predicate HasFault(v: Json, schemas: Schemas, e: ResolveError) {
    match v
    case JArray(xs) => exists i :: 0 <= i < |xs| && HasFault(xs[i], schemas, e)
    case JObject(m) =>
      || (exists k :: k in m && IsRef(k) && !Loads(m[k], schemas) && e == Fault(k, m[k]))
      || (exists k :: k in m && Survives(k, m) && HasFault(m[k], schemas, e))
    case _ => false
  }

  /** The resolved document: references replaced by schemas, the other entries resolved in turn. */
  ghost function Resolved(v: Json, schemas: Schemas): Json
    requires Resolvable(v, schemas)
  {
    match v
    case JArray(xs) => JArray(seq(|xs|, i requires 0 <= i < |xs| => Resolved(xs[i], schemas)))
    case JObject(m) =>
      JObject(map j | j in KeysAfter(m, References(m)) ::
        if j + SUFFIX in m then
          StripInverse(j);
          assert Loads(m[j + SUFFIX], schemas);
          Embed(schemas[m[j + SUFFIX].s])
        else
          InKeysAfter(m, References(m), j);
          StripInverse(j);
          Resolved(m[j], schemas))
    case _ => v
  }

  /**
    What a key of a resolved object holds: the schema that a reference names, which reads back from it, or
    else its own resolved value.
   */
  lemma ResolvedField(m: map<string, Json>, schemas: Schemas, j: string)
    requires Resolvable(JObject(m), schemas)
    ensures var r := Resolved(JObject(m), schemas).fields;
      && (j in r <==> j + SUFFIX in m || (j in m && !IsRef(j)))
      && (j + SUFFIX in m ==> Loads(m[j + SUFFIX], schemas) && r[j] == Embed(schemas[m[j + SUFFIX].s]))
      && (j + SUFFIX in m ==> ReadSchema(r[j]) == Some(schemas[m[j + SUFFIX].s]))
      && (j in m && Survives(j, m) ==> Resolvable(m[j], schemas) && r[j] == Resolved(m[j], schemas))
  {
    StripInverse(j);
    InKeysAfter(m, References(m), j);
    if j + SUFFIX in m {
      assert Loads(m[j + SUFFIX], schemas);
      EmbedReadsBack(schemas[m[j + SUFFIX].s]);
    }
  }

  /** The schema with its field names rewritten. */
  function Renamed(s: Schema, text: string -> string): Schema {
    Schema(seq(|s.fields|, i requires 0 <= i < |s.fields| => Field(text(s.fields[i].name), s.fields[i].dataType)))
  }

  /**
    What an object has under `x` once resolved: what deserializes to the schema at the path of `x_ref`, if
    there is such a key, and otherwise something exactly if it had `x` and that is no reference.
   */
  ghost predicate ExpandsKey(m: map<string, Json>, fields: map<string, Json>, schemas: Schemas,
                             text: string -> string, x: string)
  {
    if x + "_ref" in m then
      && x in fields && m[x + "_ref"].JString? && m[x + "_ref"].s in schemas
      && ReadSchema(fields[x]) == Some(Renamed(schemas[m[x + "_ref"].s], text))
    else x in fields <==> x in m && !(|x| >= 4 && x[|x| - 4..] == "_ref")
  }

  /** What resolution is for, at every depth, with the text of every leaf and field name rewritten by `text`. */
  ghost predicate Expands(v: Json, out: Json, schemas: Schemas, text: string -> string) {
    match v
    case JString(s) => out == JString(text(s))
    case JArray(xs) =>
      out.JArray? && |out.items| == |xs| && forall i :: 0 <= i < |xs| ==> Expands(xs[i], out.items[i], schemas, text)
    case JObject(m) =>
      && out.JObject? && (forall x :: ExpandsKey(m, out.fields, schemas, text, x))
      && forall x :: x in m && x in out.fields && x + "_ref" !in m ==> Expands(m[x], out.fields[x], schemas, text)
    case _ => out == v
  }

  /** The text as it is. */
  const SAME: string -> string := (s: string) => s

  lemma RenamedSame(s: Schema)
    ensures Renamed(s, SAME) == s
  {
    var fields := Renamed(s, SAME).fields;
    forall i | 0 <= i < |s.fields| ensures fields[i] == s.fields[i] {
      assert SAME(s.fields[i].name) == s.fields[i].name;
    }
    assert fields == s.fields;
  }

  /** The resolved document is the expansion, with all texts as they were. */
  lemma {:induction false} ResolvedExpands(v: Json, schemas: Schemas)
    requires Resolvable(v, schemas)
    ensures Expands(v, Resolved(v, schemas), schemas, SAME)
  {
    match v {
      case JArray(xs) =>
        forall i | 0 <= i < |xs| ensures Expands(xs[i], Resolved(v, schemas).items[i], schemas, SAME) {
          ResolvedExpands(xs[i], schemas);
        }
      case JObject(m) =>
        var r := Resolved(v, schemas).fields;
        forall x ensures ExpandsKey(m, r, schemas, SAME, x) {
          ResolvedField(m, schemas, x);
          if x + SUFFIX in m {
            RenamedSame(schemas[m[x + SUFFIX].s]);
          }
        }
        forall x | x in m && x in r && x + "_ref" !in m ensures Expands(m[x], r[x], schemas, SAME) {
          ResolvedField(m, schemas, x);
          ResolvedExpands(m[x], schemas);
        }
      case _ =>
    }
  }

  ghost predicate Idle(v: Json, schemas: Schemas) {
    Resolvable(v, schemas) && !Clash(v) && !HasDoubledRef(v) && Resolved(v, schemas) == v
  }

  lemma IdleObject(m: map<string, Json>, schemas: Schemas)
    requires !HasRef(JObject(m)) && forall k :: k in m ==> Idle(m[k], schemas)
    ensures Idle(JObject(m), schemas)
  {
    assert forall k :: k in m ==> !IsRef(k) && Idle(m[k], schemas);
    assert Resolvable(JObject(m), schemas) && !Clash(JObject(m)) && !HasDoubledRef(JObject(m));
    var r := Resolved(JObject(m), schemas).fields;
    forall j ensures (j in r <==> j in m) && (j in r && j in m ==> r[j] == m[j]) {}
    assert r == m;
  }

  /** Without references, resolving is the identity. */
  lemma {:induction false} ResolvingIsIdle(v: Json, schemas: Schemas)
    requires !HasRef(v)
    ensures Idle(v, schemas)
  {
    match v {
      case JArray(xs) =>
        forall i | 0 <= i < |xs| ensures Idle(xs[i], schemas) {
          ResolvingIsIdle(xs[i], schemas);
        }
        assert Resolved(v, schemas).items == xs;
      case JObject(m) =>
        forall k | k in m ensures Idle(m[k], schemas) {
          ResolvingIsIdle(m[k], schemas);
        }
        IdleObject(m, schemas);
      case _ =>
    }
  }

  /** After a successful resolution, a reference key is left exactly when a doubled one was looked at. */
  lemma {:induction false} RefsLeftIffDoubled(v: Json, schemas: Schemas)
    requires Resolvable(v, schemas)
    ensures HasRef(Resolved(v, schemas)) <==> HasDoubledRef(v)
  {
    match v {
      case JArray(xs) =>
        forall i | 0 <= i < |xs| ensures HasRef(Resolved(xs[i], schemas)) <==> HasDoubledRef(xs[i]) {
          RefsLeftIffDoubled(xs[i], schemas);
        }
        var ys := Resolved(v, schemas).items;
        assert forall i :: 0 <= i < |xs| ==> ys[i] == Resolved(xs[i], schemas);
      case JObject(m) =>
        forall k | k in m && Survives(k, m) ensures HasRef(Resolved(m[k], schemas)) <==> HasDoubledRef(m[k]) {
          RefsLeftIffDoubled(m[k], schemas);
        }
        var r := Resolved(v, schemas).fields;
        forall j | j in r
          ensures j + SUFFIX in m ==> !HasRef(r[j]) && IsRef(j + SUFFIX) && Strip(j + SUFFIX) == j
          ensures j + SUFFIX !in m ==> j in m && Survives(j, m) && r[j] == Resolved(m[j], schemas)
        {
          ResolvedField(m, schemas, j);
          StripInverse(j);
          if j + SUFFIX in m {
            EmbedHasNoRef(schemas[m[j + SUFFIX].s]);
          }
        }
        if HasDoubledRef(v) {
          if k :| k in m && IsRef(k) && IsRef(Strip(k)) {
            StripInverse(k);
            ResolvedField(m, schemas, Strip(k));
          } else {
            var k :| k in m && Survives(k, m) && HasDoubledRef(m[k]);
            ResolvedField(m, schemas, k);
          }
        }
        if HasRef(Resolved(v, schemas)) {
          var j :| j in r && (IsRef(j) || HasRef(r[j]));
          if j + SUFFIX in m {
            assert IsRef(Strip(j + SUFFIX));
          } else {
            assert HasDoubledRef(m[j]);
          }
        }
      case _ =>
    }
  }

  lemma {:induction false} DoubledCannotResolveTwice(v: Json, schemas: Schemas)
    requires Resolvable(v, schemas) && HasDoubledRef(v)
    ensures !Resolvable(Resolved(v, schemas), schemas)
  {
    match v {
      case JArray(xs) =>
        var i :| 0 <= i < |xs| && HasDoubledRef(xs[i]);
        DoubledCannotResolveTwice(xs[i], schemas);
        assert Resolved(v, schemas).items[i] == Resolved(xs[i], schemas);
      case JObject(m) =>
        if k :| k in m && IsRef(k) && IsRef(Strip(k)) {
          DoubledHere(m, schemas, k);
        } else {
          var k :| k in m && Survives(k, m) && HasDoubledRef(m[k]);
          DoubledCannotResolveTwice(m[k], schemas);
          DoubledBelow(m, schemas, k);
        }
    }
  }

  lemma DoubledHere(m: map<string, Json>, schemas: Schemas, k: string)
    requires Resolvable(JObject(m), schemas) && k in m && IsRef(k) && IsRef(Strip(k))
    ensures !Resolvable(Resolved(JObject(m), schemas), schemas)
  {
    StripInverse(k);
    ResolvedField(m, schemas, Strip(k));
    var r := Resolved(JObject(m), schemas).fields;
    assert !Loads(r[Strip(k)], schemas);
    assert !AllLoad(r, schemas);
  }

  lemma DoubledBelow(m: map<string, Json>, schemas: Schemas, k: string)
    requires Resolvable(JObject(m), schemas) && k in m && Survives(k, m)
    requires Resolvable(m[k], schemas) && !Resolvable(Resolved(m[k], schemas), schemas)
    ensures !Resolvable(Resolved(JObject(m), schemas), schemas)
  {
    var r := Resolved(JObject(m), schemas).fields;
    ResolvedField(m, schemas, k);
    if k + SUFFIX in r {
      StripInverse(k);
      ResolvedField(m, schemas, k + SUFFIX);
      StripInverse(k + SUFFIX);
      DoubledHere(m, schemas, k + SUFFIX + SUFFIX);
    } else {
      assert Survives(k, r);
    }
  }

  /**
    Resolving a resolved document succeeds exactly when no doubled reference was looked at, and
    then changes nothing.
   */
  lemma ResolvingTwice(v: Json, schemas: Schemas)
    requires Resolvable(v, schemas)
    ensures Resolvable(Resolved(v, schemas), schemas) <==> !HasDoubledRef(v)
    ensures !HasDoubledRef(v) ==>
      Resolvable(Resolved(v, schemas), schemas) && Resolved(Resolved(v, schemas), schemas) == Resolved(v, schemas)
  {
    RefsLeftIffDoubled(v, schemas);
    if HasDoubledRef(v) {
      DoubledCannotResolveTwice(v, schemas);
    } else {
      ResolvingIsIdle(Resolved(v, schemas), schemas);
    }
  }

  /** A document is unresolvable exactly when it holds a faulty reference. */
  lemma {:induction false} UnresolvableIffFaulty(v: Json, schemas: Schemas)
    ensures !Resolvable(v, schemas) <==> exists e :: HasFault(v, schemas, e)
  {
    match v {
      case JArray(xs) =>
        forall i | 0 <= i < |xs| ensures !Resolvable(xs[i], schemas) <==> exists e :: HasFault(xs[i], schemas, e) {
          UnresolvableIffFaulty(xs[i], schemas);
        }
        if !Resolvable(v, schemas) {
          var i :| 0 <= i < |xs| && !Resolvable(xs[i], schemas);
          var e :| HasFault(xs[i], schemas, e);
          assert HasFault(v, schemas, e);
        }
      case JObject(m) =>
        forall k | k in m ensures !Resolvable(m[k], schemas) <==> exists e :: HasFault(m[k], schemas, e) {
          UnresolvableIffFaulty(m[k], schemas);
        }
        if !AllLoad(m, schemas) {
          var k :| k in m && IsRef(k) && !Loads(m[k], schemas);
          assert HasFault(v, schemas, Fault(k, m[k]));
        } else if !Resolvable(v, schemas) {
          var k :| k in m && Survives(k, m) && !Resolvable(m[k], schemas);
          var e :| HasFault(m[k], schemas, e);
          assert HasFault(v, schemas, e);
        }
      case _ =>
    }
  }

  // ---------- whole documents, key order by key order ----------

  datatype Place = Key(key: string) | Item(index: nat)

  /** Where in a document an object stands. */
  type Path = seq<Place>

  /** The order in which the object at a place, with the given keys, lists those that are references. */
  type KeyOrders = (Path, set<string>) -> seq<string>

  ghost predicate AreKeyOrders(orders: KeyOrders) {
    forall at, keys :: IsRefOrder(orders(at, keys), keys)
  }

  /** Every object that is looked at gets through its reference loop. */
  ghost predicate Succeeds(v: Json, schemas: Schemas, at: Path, orders: KeyOrders)
    requires AreKeyOrders(orders)
  {
    match v
    case JArray(xs) => forall i :: 0 <= i < |xs| ==> Succeeds(xs[i], schemas, at + [Item(i)], orders)
    case JObject(m) =>
      && ExpandInOrder(m, orders(at, m.Keys), schemas).Ok?
      && forall k :: k in m && Survives(k, m) ==> Succeeds(m[k], schemas, at + [Key(k)], orders)
    case _ => true
  }

  /** Some object that is looked at meets `x_ref_ref` before `x_ref`. */
  ghost predicate Inversion(v: Json, at: Path, orders: KeyOrders) {
    match v
    case JArray(xs) => exists i :: 0 <= i < |xs| && Inversion(xs[i], at + [Item(i)], orders)
    case JObject(m) =>
      Inverted(orders(at, m.Keys)) || exists k :: k in m && Survives(k, m) && Inversion(m[k], at + [Key(k)], orders)
    case _ => false
  }

  /** The exact condition, which the order of the keys in the document decides. */
  lemma {:induction false} SucceedsIff(v: Json, schemas: Schemas, at: Path, orders: KeyOrders)
    requires AreKeyOrders(orders)
    ensures Succeeds(v, schemas, at, orders) <==> Resolvable(v, schemas) && !Inversion(v, at, orders)
  {
    match v {
      case JArray(xs) =>
        forall i | 0 <= i < |xs|
          ensures Succeeds(xs[i], schemas, at + [Item(i)], orders) <==>
            Resolvable(xs[i], schemas) && !Inversion(xs[i], at + [Item(i)], orders)
        {
          SucceedsIff(xs[i], schemas, at + [Item(i)], orders);
        }
      case JObject(m) =>
        LoopOutcome(m, orders(at, m.Keys), schemas);
        forall k | k in m && Survives(k, m)
          ensures Succeeds(m[k], schemas, at + [Key(k)], orders) <==>
            Resolvable(m[k], schemas) && !Inversion(m[k], at + [Key(k)], orders)
        {
          SucceedsIff(m[k], schemas, at + [Key(k)], orders);
        }
      case _ =>
    }
  }

  lemma {:induction false} InversionNeedsClash(v: Json, at: Path, orders: KeyOrders)
    requires AreKeyOrders(orders) && Inversion(v, at, orders)
    ensures Clash(v)
  {
    match v {
      case JArray(xs) =>
        var i :| 0 <= i < |xs| && Inversion(xs[i], at + [Item(i)], orders);
        InversionNeedsClash(xs[i], at + [Item(i)], orders);
      case JObject(m) =>
        if !Inverted(orders(at, m.Keys)) {
          var k :| k in m && Survives(k, m) && Inversion(m[k], at + [Key(k)], orders);
          InversionNeedsClash(m[k], at + [Key(k)], orders);
        }
    }
  }

  /** The worst order: inverted wherever the keys allow it. */
  ghost function WorstOrder(keys: set<string>): (order: seq<string>)
    ensures IsRefOrder(order, keys) && (ClashAt(keys) ==> Inverted(order))
  {
    WorstOrderExists(keys);
    var order :| IsRefOrder(order, keys) && (ClashAt(keys) ==> Inverted(order));
    order
  }

  lemma WorstOrderExists(keys: set<string>)
    ensures exists order :: IsRefOrder(order, keys) && (ClashAt(keys) ==> Inverted(order))
  {
    if ClashAt(keys) {
      var order := ClashGivesInvertedOrder(keys);
    } else {
      var order := EnumerateByLength(set k | k in keys && IsRef(k));
      assert IsRefOrder(order, keys);
    }
  }

  lemma {:induction false} ClashInverts(v: Json, at: Path, orders: KeyOrders)
    requires Clash(v) && forall at, keys :: orders(at, keys) == WorstOrder(keys)
    ensures Inversion(v, at, orders)
  {
    match v {
      case JArray(xs) =>
        var i :| 0 <= i < |xs| && Clash(xs[i]);
        ClashInverts(xs[i], at + [Item(i)], orders);
      case JObject(m) =>
        if !ClashAt(m.Keys) {
          var k :| k in m && Survives(k, m) && Clash(m[k]);
          ClashInverts(m[k], at + [Key(k)], orders);
        }
    }
  }

  lemma NoClashSucceeds(v: Json, schemas: Schemas, at: Path, orders: KeyOrders)
    requires AreKeyOrders(orders) && Resolvable(v, schemas) && !Clash(v)
    ensures Succeeds(v, schemas, at, orders)
  {
    SucceedsIff(v, schemas, at, orders);
    if Inversion(v, at, orders) {
      InversionNeedsClash(v, at, orders);
    }
  }

  lemma ClashCanFail(v: Json, schemas: Schemas) returns (orders: KeyOrders)
    requires Clash(v)
    ensures AreKeyOrders(orders) && !Succeeds(v, schemas, [], orders)
  {
    orders := (at: Path, keys: set<string>) => WorstOrder(keys);
    ClashInverts(v, [], orders);
    SucceedsIff(v, schemas, [], orders);
  }

  /** A resolvable document resolves under all key orders of its objects exactly when none of them clashes. */
  lemma EveryOrderResolvesIffNoClash(v: Json, schemas: Schemas)
    requires Resolvable(v, schemas)
    ensures (forall orders :: AreKeyOrders(orders) ==> Succeeds(v, schemas, [], orders)) <==> !Clash(v)
  {
    if Clash(v) {
      var worst := ClashCanFail(v, schemas);
    } else {
      forall orders | AreKeyOrders(orders) ensures Succeeds(v, schemas, [], orders) {
        NoClashSucceeds(v, schemas, [], orders);
      }
    }
  }

  // ---------- the in-place rewrite ----------

  /** The loop over the reference keys of one object, in the order given. */
  method ExpandRefs(m: map<string, Json>, order: seq<string>, schemas: Schemas)
    returns (r: Result<map<string, Json>, ResolveError>)
    requires IsRefOrder(order, m.Keys)
    ensures r == ExpandInOrder(m, order, schemas)
    ensures r.Ok? <==> AllLoad(m, schemas) && !Inverted(order)
    ensures r.Ok? ==> r.value == Expanded(m, References(m), schemas)
    ensures r.Ok? ==> ExpandsHere(m, r.value, schemas)
    ensures r.Err? ==> LoopFault(m, schemas, r.error)
  {
    LoopOutcome(m, order, schemas);
    var fields := m;
    for i := 0 to |order|
      invariant ExpandInOrder(m, order[..i], schemas) == Ok(fields)
    {
      var k := order[i];
      LoopTurn(m, order, i, fields, schemas);
      if k !in fields {
        return Err(MissingKey(k));
      }
      var rel := fields[k];
      fields := fields - {k};
      if !rel.JString? {
        return Err(NotAString(k));
      }
      if rel.s !in schemas {
        return Err(LoadFailed(rel.s));
      }
      fields := fields[Strip(k) := Embed(schemas[rel.s])];
    }
    assert order[..|order|] == order;
    ExpandedIsExpansion(m, schemas);
    r := Ok(fields);
  }

  ghost predicate LoopFault(m: map<string, Json>, schemas: Schemas, e: ResolveError) {
    || ClashFaultAt(m, e)
    || exists k :: k in m && IsRef(k) && !Loads(m[k], schemas) && e == Fault(k, m[k])
  }

  lemma LoopOutcome(m: map<string, Json>, order: seq<string>, schemas: Schemas)
    requires IsRefOrder(order, m.Keys)
    ensures var r := ExpandInOrder(m, order, schemas);
      && (r.Ok? <==> AllLoad(m, schemas) && !Inverted(order))
      && (r.Ok? ==> r.value == Expanded(m, References(m), schemas))
      && (r.Err? ==> LoopFault(m, schemas, r.error))
  {
    var r := ExpandInOrder(m, order, schemas);
    ExpandInOrderExact(m, order, schemas);
    assert Elements(order) == References(m);
    if r.Ok? {
      SameFieldsEqual(r.value, Expanded(m, References(m), schemas));
    }
  }

  /** One more iteration of the loop; a failure ends it. */
  lemma LoopTurn(m: map<string, Json>, order: seq<string>, i: nat, fields: map<string, Json>, schemas: Schemas)
    requires i < |order| && (forall k :: k in order ==> IsRef(k))
    requires ExpandInOrder(m, order[..i], schemas) == Ok(fields)
    ensures IsRef(order[i])
    ensures var next := ExpandKey(fields, order[i], schemas);
      && ExpandInOrder(m, order[..i + 1], schemas) == next
      && (next.Err? ==> ExpandInOrder(m, order, schemas) == next)
  {
    assert order[i] in order && order[..i + 1][..i] == order[..i];
    if ExpandKey(fields, order[i], schemas).Err? {
      FailureEndsLoop(m, order, i + 1, schemas);
    }
  }

  /** The object after `ExpandRefs`, entry by entry. */
  lemma ExpandedField(m: map<string, Json>, schemas: Schemas, j: string)
    requires AllLoad(m, schemas)
    ensures var fields := Expanded(m, References(m), schemas);
      && (j in fields <==> j + SUFFIX in m || (j in m && !IsRef(j)))
      && (j + SUFFIX in m ==> Loads(m[j + SUFFIX], schemas) && fields[j] == Embed(schemas[m[j + SUFFIX].s]))
      && (j in fields && j + SUFFIX !in m ==> j in m && Survives(j, m) && fields[j] == m[j])
  {
    StripInverse(j);
    InKeysAfter(m, References(m), j);
  }

  /** One object expanded, its other entries as they were. */
  ghost predicate ExpandsHere(m: map<string, Json>, fields: map<string, Json>, schemas: Schemas) {
    && (forall x :: ExpandsKey(m, fields, schemas, SAME, x))
    && forall x :: x in m && x in fields && x + "_ref" !in m ==> fields[x] == m[x]
  }

  lemma ExpandedIsExpansion(m: map<string, Json>, schemas: Schemas)
    requires AllLoad(m, schemas)
    ensures ExpandsHere(m, Expanded(m, References(m), schemas), schemas)
  {
    var fields := Expanded(m, References(m), schemas);
    forall x
      ensures ExpandsKey(m, fields, schemas, SAME, x)
      ensures x in m && x in fields && x + "_ref" !in m ==> fields[x] == m[x]
    {
      ExpandedField(m, schemas, x);
      if x + SUFFIX in m {
        EmbedReadsBack(schemas[m[x + SUFFIX].s]);
        RenamedSame(schemas[m[x + SUFFIX].s]);
      }
    }
  }

  /** `fields` holds the resolved children of an object whose references were expanded. */
  ghost predicate ChildrenDone(m: map<string, Json>, schemas: Schemas, fields: map<string, Json>)
    requires AllLoad(m, schemas)
  {
    var start := Expanded(m, References(m), schemas);
    && fields.Keys == start.Keys
    && forall k :: k in fields ==> Resolvable(start[k], schemas) && fields[k] == Resolved(start[k], schemas)
  }

  lemma ChildDone(m: map<string, Json>, schemas: Schemas, fields: map<string, Json>, j: string)
    requires AllLoad(m, schemas) && ChildrenDone(m, schemas, fields)
    ensures j in fields <==> j + SUFFIX in m || (j in m && !IsRef(j))
    ensures j in m && Survives(j, m) ==> Resolvable(m[j], schemas) && fields[j] == Resolved(m[j], schemas)
    ensures j + SUFFIX in m ==> Loads(m[j + SUFFIX], schemas) && fields[j] == Embed(schemas[m[j + SUFFIX].s])
  {
    ExpandedField(m, schemas, j);
    if j + SUFFIX in m {
      var s := schemas[m[j + SUFFIX].s];
      EmbedHasNoRef(s);
      ResolvingIsIdle(Embed(s), schemas);
    }
  }

  lemma SameField(m: map<string, Json>, schemas: Schemas, fields: map<string, Json>, j: string)
    requires AllLoad(m, schemas) && ChildrenDone(m, schemas, fields) && Resolvable(JObject(m), schemas)
    ensures var r := Resolved(JObject(m), schemas).fields;
      (j in fields <==> j in r) && (j in fields && j in r ==> fields[j] == r[j])
  {
    ChildDone(m, schemas, fields, j);
    ResolvedField(m, schemas, j);
  }

  lemma ChildrenResolvable(m: map<string, Json>, schemas: Schemas, fields: map<string, Json>)
    requires AllLoad(m, schemas) && ChildrenDone(m, schemas, fields)
    ensures Resolvable(JObject(m), schemas)
  {
    forall k | k in m && Survives(k, m) ensures Resolvable(m[k], schemas) {
      ChildDone(m, schemas, fields, k);
    }
  }

  /** The children loop's final object is the resolved one. */
  lemma ChildrenResolved(m: map<string, Json>, schemas: Schemas, fields: map<string, Json>)
    requires AllLoad(m, schemas) && ChildrenDone(m, schemas, fields)
    ensures Resolvable(JObject(m), schemas) && JObject(fields) == Resolved(JObject(m), schemas)
  {
    ChildrenResolvable(m, schemas, fields);
    var r := Resolved(JObject(m), schemas).fields;
    forall j ensures (j in fields <==> j in r) && (j in fields && j in r ==> fields[j] == r[j]) {
      SameField(m, schemas, fields, j);
    }
    assert fields == r;
  }

  lemma FaultIfErr(v: Json, schemas: Schemas, e: ResolveError)
    requires HasFault(v, schemas, e)
    ensures !Resolvable(v, schemas)
  {
    UnresolvableIffFaulty(v, schemas);
  }

  /** What a resolution of `v` may answer, whatever the key orders. */
  ghost predicate Answers(v: Json, schemas: Schemas, r: Result<Json, ResolveError>) {
    match r
    case Ok(out) => Resolvable(v, schemas) && out == Resolved(v, schemas)
    case Err(e) => ClashFault(v, e) || HasFault(v, schemas, e)
  }

  /** A child of an expanded object is a child of the original or an embedded schema. */
  lemma ChildDecreases(m: map<string, Json>, schemas: Schemas, k: string)
    requires AllLoad(m, schemas) && k in Expanded(m, References(m), schemas)
    ensures var child := Expanded(m, References(m), schemas)[k];
      if k in m && Survives(k, m) then child == m[k] && (HasRef(child) ==> HasRef(JObject(m)))
      else !HasRef(child) && HasRef(JObject(m)) && Resolvable(child, schemas) && !Clash(child)
  {
    ExpandedField(m, schemas, k);
    StripInverse(k);
    if k + SUFFIX in m {
      var s := schemas[m[k + SUFFIX].s];
      EmbedHasNoRef(s);
      ResolvingIsIdle(Embed(s), schemas);
    }
  }

  lemma ChildFails(m: map<string, Json>, schemas: Schemas, k: string, e: ResolveError)
    requires AllLoad(m, schemas) && k in Expanded(m, References(m), schemas)
    requires Answers(Expanded(m, References(m), schemas)[k], schemas, Err(e))
    ensures Answers(JObject(m), schemas, Err(e))
  {
    ChildDecreases(m, schemas, k);
    var child := Expanded(m, References(m), schemas)[k];
    if k in m && Survives(k, m) {
      assert ClashFault(child, e) ==> ClashFault(JObject(m), e);
      assert HasFault(child, schemas, e) ==> HasFault(JObject(m), schemas, e);
    } else if ClashFault(child, e) {
      ClashFaultNeedsClash(child, e);
    } else {
      FaultIfErr(child, schemas, e);
    }
  }

  /** The children in `todo` are as they were, the others resolved. */
  ghost predicate ChildrenLeft(start: map<string, Json>, fields: map<string, Json>, todo: set<string>,
                               schemas: Schemas)
  {
    && todo <= fields.Keys == start.Keys
    && (forall k :: k in todo ==> fields[k] == start[k])
    && (forall k :: k in fields && k !in todo ==>
          Resolvable(start[k], schemas) && fields[k] == Resolved(start[k], schemas))
  }

  lemma ChildResolved(start: map<string, Json>, fields: map<string, Json>, todo: set<string>, schemas: Schemas,
                      k: string, out: Json)
    requires ChildrenLeft(start, fields, todo, schemas) && k in todo
    requires Answers(start[k], schemas, Ok(out))
    ensures ChildrenLeft(start, fields[k := out], todo - {k}, schemas)
  {
  }

  /** The surviving children that were handled all succeed. */
  ghost predicate HandledSucceed(m: map<string, Json>, todo: set<string>, schemas: Schemas, at: Path, orders: KeyOrders)
    requires AreKeyOrders(orders)
  {
    forall k :: k in m && Survives(k, m) && k !in todo ==> Succeeds(m[k], schemas, at + [Key(k)], orders)
  }

  lemma AllChildrenLeft(m: map<string, Json>, schemas: Schemas, at: Path, orders: KeyOrders)
    requires AreKeyOrders(orders) && AllLoad(m, schemas)
    ensures HandledSucceed(m, Expanded(m, References(m), schemas).Keys, schemas, at, orders)
  {
    forall k | k in m && Survives(k, m) ensures k in Expanded(m, References(m), schemas) {
      ExpandedField(m, schemas, k);
    }
  }

  lemma ChildSucceeds(m: map<string, Json>, todo: set<string>, schemas: Schemas, at: Path, orders: KeyOrders, k: string)
    requires AreKeyOrders(orders) && AllLoad(m, schemas) && HandledSucceed(m, todo, schemas, at, orders)
    requires k in Expanded(m, References(m), schemas)
    requires Succeeds(Expanded(m, References(m), schemas)[k], schemas, at + [Key(k)], orders)
    ensures HandledSucceed(m, todo - {k}, schemas, at, orders)
  {
    ChildDecreases(m, schemas, k);
  }

  lemma ChildStops(m: map<string, Json>, schemas: Schemas, at: Path, orders: KeyOrders, k: string)
    requires AreKeyOrders(orders) && AllLoad(m, schemas) && k in Expanded(m, References(m), schemas)
    requires !Succeeds(Expanded(m, References(m), schemas)[k], schemas, at + [Key(k)], orders)
    ensures !HandledSucceed(m, {}, schemas, at, orders)
  {
    var child := Expanded(m, References(m), schemas)[k];
    ChildDecreases(m, schemas, k);
    SucceedsIff(child, schemas, at + [Key(k)], orders);
    if Inversion(child, at + [Key(k)], orders) {
      InversionNeedsClash(child, at + [Key(k)], orders);
    }
  }

  lemma ChildrenComplete(m: map<string, Json>, fields: map<string, Json>, schemas: Schemas)
    requires AllLoad(m, schemas) && ChildrenLeft(Expanded(m, References(m), schemas), fields, {}, schemas)
    ensures Answers(JObject(m), schemas, Ok(JObject(fields)))
  {
    assert ChildrenDone(m, schemas, fields);
    ChildrenResolved(m, schemas, fields);
  }

  /** The loop over the children of an object whose references were expanded. */
  method ResolveChildren(m: map<string, Json>, expanded: map<string, Json>, schemas: Schemas,
                         at: Path, orders: KeyOrders)
    returns (r: Result<Json, ResolveError>)
    requires AreKeyOrders(orders)
    requires AllLoad(m, schemas) && expanded == Expanded(m, References(m), schemas)
    ensures Answers(JObject(m), schemas, r)
    ensures r.Ok? <==> HandledSucceed(m, {}, schemas, at, orders)
    decreases HasRef(JObject(m)), JObject(m), 0
  {
    var fields, todo := expanded, expanded.Keys;
    AllChildrenLeft(m, schemas, at, orders);
    while todo != {}
      invariant ChildrenLeft(expanded, fields, todo, schemas)
      invariant HandledSucceed(m, todo, schemas, at, orders)
    {
      var k :| k in todo;
      ChildDecreases(m, schemas, k);
      var child := ResolveSchemaRefs(fields[k], schemas, at + [Key(k)], orders);
      if child.Err? {
        ChildFails(m, schemas, k, child.error);
        ChildStops(m, schemas, at, orders, k);
        return Err(child.error);
      }
      ChildResolved(expanded, fields, todo, schemas, k, child.value);
      ChildSucceeds(m, todo, schemas, at, orders, k);
      fields, todo := fields[k := child.value], todo - {k};
    }
    ChildrenComplete(m, fields, schemas);
    r := Ok(JObject(fields));
  }

  /** The first `n` items are resolved, the others as they were. */
  ghost predicate ItemsDone(xs: seq<Json>, items: seq<Json>, n: nat, schemas: Schemas, at: Path, orders: KeyOrders)
    requires AreKeyOrders(orders)
  {
    && |items| == |xs| && n <= |xs|
    && (forall j :: n <= j < |xs| ==> items[j] == xs[j])
    && (forall j :: 0 <= j < n ==> Resolvable(xs[j], schemas) && items[j] == Resolved(xs[j], schemas))
    && (forall j :: 0 <= j < n ==> Succeeds(xs[j], schemas, at + [Item(j)], orders))
  }

  lemma ItemResolved(xs: seq<Json>, items: seq<Json>, n: nat, schemas: Schemas, at: Path, orders: KeyOrders)
    requires AreKeyOrders(orders) && ItemsDone(xs, items, n, schemas, at, orders) && n < |xs|
    requires Resolvable(xs[n], schemas) && Succeeds(xs[n], schemas, at + [Item(n)], orders)
    ensures ItemsDone(xs, items[n := Resolved(xs[n], schemas)], n + 1, schemas, at, orders)
  {
  }

  lemma ItemsComplete(xs: seq<Json>, items: seq<Json>, schemas: Schemas, at: Path, orders: KeyOrders)
    requires AreKeyOrders(orders) && ItemsDone(xs, items, |xs|, schemas, at, orders)
    ensures Answers(JArray(xs), schemas, Ok(JArray(items)))
    ensures Succeeds(JArray(xs), schemas, at, orders)
  {
    assert items == Resolved(JArray(xs), schemas).items;
  }

  /** The loop over the items of an array. */
  method ResolveItems(xs: seq<Json>, schemas: Schemas, at: Path, orders: KeyOrders)
    returns (r: Result<Json, ResolveError>)
    requires AreKeyOrders(orders)
    ensures Answers(JArray(xs), schemas, r)
    ensures r.Ok? <==> Succeeds(JArray(xs), schemas, at, orders)
    decreases HasRef(JArray(xs)), JArray(xs), 0
  {
    var items := xs;
    for i := 0 to |xs|
      invariant ItemsDone(xs, items, i, schemas, at, orders)
    {
      var child := ResolveSchemaRefs(items[i], schemas, at + [Item(i)], orders);
      if child.Err? {
        return Err(child.error);
      }
      ItemResolved(xs, items, i, schemas, at, orders);
      items := items[i := child.value];
    }
    ItemsComplete(xs, items, schemas, at, orders);
    r := Ok(JArray(items));
  }

  /**
    `resolve_schema_refs`. The `&mut Value` is an exclusive borrow of an owned tree, so it is
    passed in and handed back. `orders` is the document's own key order, object by object.
   */
  method ResolveSchemaRefs(value: Json, schemas: Schemas, at: Path, orders: KeyOrders)
    returns (r: Result<Json, ResolveError>)
    requires AreKeyOrders(orders)
    ensures r.Ok? <==> Succeeds(value, schemas, at, orders)
    ensures r.Ok? <==> Resolvable(value, schemas) && !Inversion(value, at, orders)
    ensures r.Ok? ==> r.value == Resolved(value, schemas) && Expands(value, r.value, schemas, SAME)
    ensures r.Err? ==> ClashFault(value, r.error) || HasFault(value, schemas, r.error)
    ensures Resolvable(value, schemas) && !Clash(value) ==> r.Ok?
    decreases HasRef(value), value, 1
  {
    SucceedsIff(value, schemas, at, orders);
    match value {
      case JObject(m) =>
        var expanded := ExpandRefs(m, orders(at, m.Keys), schemas);
        if expanded.Err? {
          r := Err(expanded.error);
        } else {
          r := ResolveChildren(m, expanded.value, schemas, at, orders);
        }
      case JArray(xs) =>
        r := ResolveItems(xs, schemas, at, orders);
      case _ =>
        r := Ok(value);
    }
    if r.Err? && Inversion(value, at, orders) {
      InversionNeedsClash(value, at, orders);
    }
    if r.Ok? {
      ResolvedExpands(value, schemas);
    }
  }
}
