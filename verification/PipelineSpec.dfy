/**
  Template resolution end to end: expand the schema references of a pipeline or payload document,
  then bind its placeholders (`PipelineBundle::resolve_pipeline_json`, `resolve_payload_json`).
 */
module PipelineSpec {
  import opened DataModel
  import opened JsonTree
  import opened Placeholders
  import opened SchemaRefs

  /** The text holds no placeholder of any binding. */
  ghost predicate Quiet(s: string, bindings: map<string, string>) {
    forall k :: k in bindings ==> !Contains(s, Needle(k))
  }

  lemma {:induction false} QuietIsUntouched(s: string, order: seq<string>, bindings: map<string, string>)
    requires Quiet(s, bindings) && forall k :: k in order ==> k in bindings
    ensures ApplyInOrder(s, order, bindings) == s
    decreases |order|
  {
    if order != [] {
      ReplaceWithoutOccurrence(s, Needle(order[0]), bindings[order[0]]);
      QuietIsUntouched(s, order[1..], bindings);
    }
  }

  lemma {:induction false} NoBraceNoNeedle(s: string, key: string)
    requires '{' !in s
    ensures !Contains(s, Needle(key))
  {
    if |Needle(key)| <= |s| {
      Mismatch(Needle(key), s, 0);
      NoBraceNoNeedle(s[1..], key);
    }
  }

  ghost predicate QuietSchema(s: Schema, bindings: map<string, string>) {
    forall i :: 0 <= i < |s.fields| ==> Quiet(s.fields[i].name, bindings)
  }

  lemma QuietEmbed(s: Schema, order: seq<string>, bindings: map<string, string>)
    requires QuietSchema(s, bindings) && forall k :: k in order ==> k in bindings
    ensures Bind(Embed(s), order, bindings) == Embed(s)
  {
    var renamed := Renamed(s, Binder(order, bindings));
    forall i | 0 <= i < |s.fields| ensures renamed.fields[i] == s.fields[i] {
      QuietIsUntouched(s.fields[i].name, order, bindings);
    }
    assert renamed.fields == s.fields;
    BindEmbed(s, order, bindings);
  }

  /** The passes, as what happens to a text. */
  function Binder(order: seq<string>, bindings: map<string, string>): string -> string
    requires forall k :: k in order ==> k in bindings
  {
    s => ApplyInOrder(s, order, bindings)
  }

  lemma BindEmbedField(f: Field, order: seq<string>, bindings: map<string, string>)
    requires forall k :: k in order ==> k in bindings
    ensures Bind(EmbedField(f), order, bindings) == EmbedField(Field(ApplyInOrder(f.name, order, bindings), f.dataType))
  {
    TypeNameIsBare(f.dataType, order, bindings);
    var out := EmbedField(Field(ApplyInOrder(f.name, order, bindings), f.dataType));
    assert Bind(EmbedField(f), order, bindings).fields == out.fields;
  }

  /** Binding reaches the field names of an embedded schema, and none of its types. */
  lemma BindEmbed(s: Schema, order: seq<string>, bindings: map<string, string>)
    requires forall k :: k in order ==> k in bindings
    ensures Bind(Embed(s), order, bindings) == Embed(Renamed(s, Binder(order, bindings)))
    ensures ReadSchema(Bind(Embed(s), order, bindings)) == Some(Renamed(s, Binder(order, bindings)))
  {
    var v, out := Embed(s), Embed(Renamed(s, Binder(order, bindings)));
    var items := v.fields["fields"];
    forall i | 0 <= i < |s.fields| ensures Bind(items.items[i], order, bindings) == out.fields["fields"].items[i] {
      BindEmbedField(s.fields[i], order, bindings);
    }
    assert Bind(items, order, bindings).items == out.fields["fields"].items;
    assert Bind(v, order, bindings).fields == out.fields;
    EmbedReadsBack(Renamed(s, Binder(order, bindings)));
  }

  lemma TypeNameIsBare(t: DataType, order: seq<string>, bindings: map<string, string>)
    requires forall k :: k in order ==> k in bindings
    ensures ApplyInOrder(TypeName(t), order, bindings) == TypeName(t)
  {
    forall k | k in bindings ensures !Contains(TypeName(t), Needle(k)) {
      NoBraceNoNeedle(TypeName(t), k);
    }
    QuietIsUntouched(TypeName(t), order, bindings);
  }

  /** The bound resolution is the expansion of the document, with the passes made over every text. */
  lemma {:induction false} BoundExpands(v: Json, schemas: Schemas, order: seq<string>, bindings: map<string, string>)
    requires Resolvable(v, schemas) && forall k :: k in order ==> k in bindings
    ensures Expands(v, Bind(Resolved(v, schemas), order, bindings), schemas, Binder(order, bindings))
  {
    var text := Binder(order, bindings);
    match v {
      case JString(s) =>
      case JArray(xs) =>
        var out := Bind(Resolved(v, schemas), order, bindings).items;
        forall i | 0 <= i < |xs| ensures Expands(xs[i], out[i], schemas, text) {
          BoundExpands(xs[i], schemas, order, bindings);
        }
      case JObject(m) =>
        var r := Resolved(v, schemas).fields;
        var out := Bind(Resolved(v, schemas), order, bindings).fields;
        forall x ensures ExpandsKey(m, out, schemas, text, x) {
          ResolvedField(m, schemas, x);
          BoundField(r, order, bindings, x);
          if x + SUFFIX in m {
            BindEmbed(schemas[m[x + SUFFIX].s], order, bindings);
          }
        }
        forall x | x in m && x in out && x + "_ref" !in m ensures Expands(m[x], out[x], schemas, text) {
          ResolvedField(m, schemas, x);
          BoundField(r, order, bindings, x);
          BoundExpands(m[x], schemas, order, bindings);
        }
      case _ =>
    }
  }

  /** No reference path that is looked at, nor any schema it loads, holds a bound placeholder. */
  ghost predicate QuietRefs(v: Json, schemas: Schemas, bindings: map<string, string>) {
    match v
    case JArray(xs) => forall i :: 0 <= i < |xs| ==> QuietRefs(xs[i], schemas, bindings)
    case JObject(m) =>
      && (forall k :: k in m && IsRef(k) ==> QuietRef(m[k], schemas, bindings))
      && (forall k :: k in m && Survives(k, m) ==> QuietRefs(m[k], schemas, bindings))
    case _ => true
  }

  ghost predicate QuietRef(v: Json, schemas: Schemas, bindings: map<string, string>) {
    v.JString? ==> Quiet(v.s, bindings) && (v.s in schemas ==> QuietSchema(schemas[v.s], bindings))
  }

  lemma QuietRefKeepsLoading(v: Json, schemas: Schemas, order: seq<string>, bindings: map<string, string>)
    requires QuietRef(v, schemas, bindings) && forall k :: k in order ==> k in bindings
    ensures Loads(Bind(v, order, bindings), schemas) <==> Loads(v, schemas)
    ensures Loads(v, schemas) ==> Bind(v, order, bindings) == v
  {
    if v.JString? {
      QuietIsUntouched(v.s, order, bindings);
    }
  }

  /** Binding neither makes a document resolvable nor stops it from being so. */
  lemma {:induction false} BindKeepsResolvable(v: Json, schemas: Schemas, order: seq<string>,
                                               bindings: map<string, string>)
    requires QuietRefs(v, schemas, bindings) && forall k :: k in order ==> k in bindings
    ensures Resolvable(Bind(v, order, bindings), schemas) <==> Resolvable(v, schemas)
  {
    match v {
      case JArray(xs) =>
        var ys := Bind(v, order, bindings).items;
        forall i | 0 <= i < |xs| ensures Resolvable(ys[i], schemas) <==> Resolvable(xs[i], schemas) {
          BindKeepsResolvable(xs[i], schemas, order, bindings);
        }
      case JObject(m) =>
        var n := Bind(v, order, bindings).fields;
        assert n.Keys == m.Keys;
        forall k | k in m && IsRef(k) ensures Loads(n[k], schemas) <==> Loads(m[k], schemas) {
          QuietRefKeepsLoading(m[k], schemas, order, bindings);
        }
        assert AllLoad(n, schemas) <==> AllLoad(m, schemas);
        forall k | k in m && Survives(k, m) ensures Resolvable(n[k], schemas) <==> Resolvable(m[k], schemas) {
          BindKeepsResolvable(m[k], schemas, order, bindings);
        }
        assert forall k :: k in m ==> (Survives(k, n) <==> Survives(k, m));
      case _ =>
    }
  }

  /**
    Resolving and binding commute, in every binding order, whenever no reference path and no
    loaded schema holds a bound placeholder.
   */
  lemma {:induction false} ResolveBindCommute(v: Json, schemas: Schemas, order: seq<string>,
                                              bindings: map<string, string>)
    requires QuietRefs(v, schemas, bindings) && forall k :: k in order ==> k in bindings
    requires Resolvable(v, schemas)
    ensures Resolvable(Bind(v, order, bindings), schemas)
    ensures Resolved(Bind(v, order, bindings), schemas) == Bind(Resolved(v, schemas), order, bindings)
  {
    BindKeepsResolvable(v, schemas, order, bindings);
    match v {
      case JArray(xs) =>
        var bound := Bind(v, order, bindings).items;
        forall i | 0 <= i < |xs|
          ensures Resolvable(bound[i], schemas)
          ensures Resolved(bound[i], schemas) == Bind(Resolved(xs[i], schemas), order, bindings)
        {
          ResolveBindCommute(xs[i], schemas, order, bindings);
        }
        assert Resolved(Bind(v, order, bindings), schemas).items == Bind(Resolved(v, schemas), order, bindings).items;
      case JObject(m) =>
        forall j | j in m && Survives(j, m) ensures CommutesBelow(m, schemas, order, bindings, j) {
          ResolveBindCommute(m[j], schemas, order, bindings);
        }
        CommuteObject(m, schemas, order, bindings);
      case _ =>
    }
  }

  ghost predicate CommutesBelow(m: map<string, Json>, schemas: Schemas, order: seq<string>,
                                bindings: map<string, string>, j: string)
    requires j in m && Resolvable(m[j], schemas) && forall k :: k in order ==> k in bindings
  {
    && Resolvable(Bind(m[j], order, bindings), schemas)
    && Resolved(Bind(m[j], order, bindings), schemas) == Bind(Resolved(m[j], schemas), order, bindings)
  }

  lemma CommuteObject(m: map<string, Json>, schemas: Schemas, order: seq<string>, bindings: map<string, string>)
    requires QuietRefs(JObject(m), schemas, bindings) && forall k :: k in order ==> k in bindings
    requires Resolvable(JObject(m), schemas) && Resolvable(Bind(JObject(m), order, bindings), schemas)
    requires forall j :: j in m && Survives(j, m) ==> CommutesBelow(m, schemas, order, bindings, j)
    ensures Resolved(Bind(JObject(m), order, bindings), schemas) == Bind(Resolved(JObject(m), schemas), order, bindings)
  {
    var left := Resolved(Bind(JObject(m), order, bindings), schemas).fields;
    var right := Bind(Resolved(JObject(m), schemas), order, bindings).fields;
    forall j ensures AgreeAt(left, right, j) {
      CommuteAt(m, schemas, order, bindings, j);
    }
    AgreeEverywhere(left, right);
  }

  ghost predicate AgreeAt(a: map<string, Json>, b: map<string, Json>, j: string) {
    (j in a <==> j in b) && (j in a && j in b ==> a[j] == b[j])
  }

  lemma AgreeEverywhere(a: map<string, Json>, b: map<string, Json>)
    requires forall j :: AgreeAt(a, b, j)
    ensures a == b
  {
    assert forall j :: j in a ==> AgreeAt(a, b, j);
    assert forall j :: j in b ==> AgreeAt(a, b, j);
  }

  lemma BoundField(m: map<string, Json>, order: seq<string>, bindings: map<string, string>, k: string)
    requires forall b :: b in order ==> b in bindings
    ensures var n := Bind(JObject(m), order, bindings).fields;
      (k in n <==> k in m) && (k in m ==> n[k] == Bind(m[k], order, bindings))
  {
  }

  lemma CommuteAt(m: map<string, Json>, schemas: Schemas, order: seq<string>, bindings: map<string, string>, j: string)
    requires QuietRefs(JObject(m), schemas, bindings) && forall k :: k in order ==> k in bindings
    requires Resolvable(JObject(m), schemas) && Resolvable(Bind(JObject(m), order, bindings), schemas)
    requires j in m && Survives(j, m) ==> CommutesBelow(m, schemas, order, bindings, j)
    ensures var left := Resolved(Bind(JObject(m), order, bindings), schemas).fields;
      var right := Bind(Resolved(JObject(m), schemas), order, bindings).fields;
      AgreeAt(left, right, j)
  {
    var n := Bind(JObject(m), order, bindings).fields;
    BoundField(m, order, bindings, j);
    BoundField(m, order, bindings, j + SUFFIX);
    ResolvedField(m, schemas, j);
    ResolvedField(n, schemas, j);
    BoundField(Resolved(JObject(m), schemas).fields, order, bindings, j);
    StripInverse(j);
    if j + SUFFIX in m {
      QuietRefKeepsLoading(m[j + SUFFIX], schemas, order, bindings);
      QuietEmbed(schemas[m[j + SUFFIX].s], order, bindings);
    }
  }

  /** Binding changes no key, so it inverts nothing and sets nothing right. */
  lemma {:induction false} BindKeepsInversion(v: Json, at: Path, keyOrders: KeyOrders, order: seq<string>,
                                              bindings: map<string, string>)
    requires forall k :: k in order ==> k in bindings
    ensures Inversion(Bind(v, order, bindings), at, keyOrders) <==> Inversion(v, at, keyOrders)
  {
    match v {
      case JArray(xs) =>
        var ys := Bind(v, order, bindings).items;
        forall i | 0 <= i < |xs|
          ensures Inversion(ys[i], at + [Item(i)], keyOrders) <==> Inversion(xs[i], at + [Item(i)], keyOrders)
        {
          BindKeepsInversion(xs[i], at + [Item(i)], keyOrders, order, bindings);
        }
      case JObject(m) =>
        var n := Bind(v, order, bindings).fields;
        assert n.Keys == m.Keys;
        assert forall k :: k in m ==> (Survives(k, n) <==> Survives(k, m));
        forall k | k in m
          ensures Inversion(n[k], at + [Key(k)], keyOrders) <==> Inversion(m[k], at + [Key(k)], keyOrders)
        {
          BindKeepsInversion(m[k], at + [Key(k)], keyOrders, order, bindings);
        }
      case _ =>
    }
  }

  /** Binding first neither lets a resolution succeed nor makes it fail, under the document's own key orders. */
  lemma BindKeepsSuccess(v: Json, schemas: Schemas, keyOrders: KeyOrders, order: seq<string>,
                         bindings: map<string, string>)
    requires AreKeyOrders(keyOrders) && QuietRefs(v, schemas, bindings) && forall k :: k in order ==> k in bindings
    ensures Succeeds(Bind(v, order, bindings), schemas, [], keyOrders) <==> Succeeds(v, schemas, [], keyOrders)
  {
    BindKeepsInversion(v, [], keyOrders, order, bindings);
    BindKeepsResolvable(v, schemas, order, bindings);
    SucceedsIff(v, schemas, [], keyOrders);
    SucceedsIff(Bind(v, order, bindings), schemas, [], keyOrders);
  }

  lemma {:induction false} SameShapeSameRefs(a: Json, b: Json)
    requires SameShape(a, b)
    ensures HasRef(a) <==> HasRef(b)
  {
    match (a, b) {
      case (JArray(xs), JArray(ys)) =>
        forall i | 0 <= i < |xs| ensures HasRef(xs[i]) <==> HasRef(ys[i]) {
          SameShapeSameRefs(xs[i], ys[i]);
        }
      case (JObject(m), JObject(n)) =>
        forall k | k in m ensures k in n && (HasRef(m[k]) <==> HasRef(n[k])) {
          assert k in m.Keys;
          SameShapeSameRefs(m[k], n[k]);
        }
        assert forall k :: k in n ==> k in m.Keys;
      case _ =>
    }
  }

  /**
    `resolve_pipeline_json` and `resolve_payload_json` on a loaded document, before serialization.
    It succeeds exactly when the references load and the document's key order inverts none; the
    result is then the bound resolution: what stands where a reference was deserializes to the schema it
    names, field names bound, and a reference key is left only by a doubled one. For
    templates and settled bindings it is the simultaneous substitution, whatever the binding order,
    and a bound token is left exactly where a replacement brought it along.
   */
  method ResolveDocument(doc: Json, schemas: Schemas, keyOrders: KeyOrders,
                         bindings: map<string, string>, order: seq<string>)
    returns (r: Result<Json, ResolveError>)
    requires AreKeyOrders(keyOrders) && IsOrder(order, bindings)
    ensures r.Ok? <==> Resolvable(doc, schemas) && !Inversion(doc, [], keyOrders)
    ensures Resolvable(doc, schemas) && !Clash(doc) ==> r.Ok?
    ensures r.Err? ==> ClashFault(doc, r.error) || HasFault(doc, schemas, r.error)
    ensures r.Ok? ==> r.value == Bind(Resolved(doc, schemas), order, bindings)
    ensures r.Ok? ==> Expands(doc, r.value, schemas, Binder(order, bindings))
    ensures r.Ok? ==> SameShape(Resolved(doc, schemas), r.value)
    ensures r.Ok? ==> (HasRef(r.value) <==> HasDoubledRef(doc))
    ensures r.Ok? && Readable(bindings) && Settled(bindings) && IsTemplate(Resolved(doc, schemas)) ==>
      && r.value == BindAtOnce(Resolved(doc, schemas), bindings) && IsTemplate(r.value)
      && (MentionsToken(r.value, bindings) <==> MentionsEcho(Resolved(doc, schemas), bindings))
    ensures QuietRefs(doc, schemas, bindings) ==>
      (r.Ok? <==> Succeeds(Bind(doc, order, bindings), schemas, [], keyOrders))
    ensures r.Ok? && QuietRefs(doc, schemas, bindings) ==>
      && Resolvable(Bind(doc, order, bindings), schemas)
      && r.value == Resolved(Bind(doc, order, bindings), schemas)
  {
    if QuietRefs(doc, schemas, bindings) {
      BindKeepsSuccess(doc, schemas, keyOrders, order, bindings);
    }
    r := ResolveSchemaRefs(doc, schemas, [], keyOrders);
    if r.Ok? {
      var bound := BindPlaceholders(r.value, bindings, order);
      BoundExpands(doc, schemas, order, bindings);
      BindSameShape(r.value, order, bindings);
      SameShapeSameRefs(r.value, bound);
      RefsLeftIffDoubled(doc, schemas);
      if Readable(bindings) && Settled(bindings) && IsTemplate(r.value) {
        BindIsSimultaneous(r.value, order, bindings);
        BoundTokenLeftIff(r.value, bindings);
      }
      if QuietRefs(doc, schemas, bindings) {
        ResolveBindCommute(doc, schemas, order, bindings);
      }
      r := Ok(bound);
    }
  }
}
