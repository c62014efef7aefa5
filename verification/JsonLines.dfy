/**
  JSON Lines export (`dataset_to_jsonl`) and the Python reader that splits it again
  (`export_jsonl_records`; the module JsonlReader follows it to the end).

  Strings are escaped as section 7 of RFC 8259 has it. Numbers stay texts: how a float prints is a
  parameter, of which only the alphabet of JSON numbers is assumed.
 */
module JsonLines {
  import opened Bytes
  import opened DataModel

  // ---------- strings ----------

  function HexValue(c: char): Option<nat> {
    if '0' <= c <= '9' then Some(c as int - '0' as int)
    else if 'a' <= c <= 'f' then Some(c as int - 'a' as int + 10)
    else if 'A' <= c <= 'F' then Some(c as int - 'A' as int + 10)
    else None
  }

  /** serde_json's escape of one character. */
  function EscapeChar(c: char): (s: string)
    ensures s != ""
  {
    if c == '"' then "\\\""
    else if c == '\\' then "\\\\"
    else if c as int == 8 then "\\b"
    else if c as int == 9 then "\\t"
    else if c as int == 10 then "\\n"
    else if c as int == 12 then "\\f"
    else if c as int == 13 then "\\r"
    else if c as int < 0x20 then "\\u00" + [HexDigit(c as int / 16), HexDigit(c as int % 16)]
    else [c]
  }

  /** Only what a JSON string cannot hold is escaped, shortly where there is a short escape, else in lower-case hex. */
  lemma EscapesOnlyWhatMust(c: char)
    ensures EscapeChar(c) == [c] <==> c as int >= 0x20 && c != '"' && c != '\\'
    ensures |EscapeChar(c)| == 2 <==> c == '"' || c == '\\' || c as int in {8, 9, 10, 12, 13}
    ensures |EscapeChar(c)| != 2 && c as int < 0x20 ==>
      EscapeChar(c)[..4] == "\\u00" && SpellsHex(EscapeChar(c)[4..], [c as int])
  {
    if |EscapeChar(c)| != 2 && c as int < 0x20 {
      DigitReads(c as int / 16);
      DigitReads(c as int % 16);
    }
  }

  function Escape(s: string): string {
    if s == "" then "" else EscapeChar(s[0]) + Escape(s[1..])
  }

  function Quote(s: string): string {
    "\"" + Escape(s) + "\""
  }

  /** The character after a backslash, if it is a short escape. */
  function ShortEscape(c: char): Option<char> {
    if c == '"' || c == '\\' || c == '/' then Some(c)
    else if c == 'b' then Some(8 as char)
    else if c == 't' then Some(9 as char)
    else if c == 'n' then Some(10 as char)
    else if c == 'f' then Some(12 as char)
    else if c == 'r' then Some(13 as char)
    else None
  }

  function FourHex(s: string): Option<nat>
    requires |s| >= 4
  {
    var a, b, c, d := HexValue(s[0]), HexValue(s[1]), HexValue(s[2]), HexValue(s[3]);
    if a.None? || b.None? || c.None? || d.None? then None
    else Some(4096 * a.value + 256 * b.value + 16 * c.value + d.value)
  }

  datatype Split<+T> = Split(value: T, rest: string)

  /** Reads one character of a string literal. Escaped surrogates are not read; the writer makes none. */
  function ReadChar(s: string): (r: Option<Split<char>>)
    ensures r.Some? ==> |r.value.rest| < |s|
  {
    if s == "" || s[0] == '"' || s[0] as int < 0x20 then None
    else if s[0] != '\\' then Some(Split(s[0], s[1..]))
    else if |s| < 2 then None
    else if s[1] == 'u' then
      if |s| < 6 then None
      else
        var code := FourHex(s[2..]);
        if code.None? || !(code.value < 0xD800 || 0xE000 <= code.value < 0x10000) then None
        else Some(Split(code.value as char, s[6..]))
    else
      var c := ShortEscape(s[1]);
      if c.None? then None else Some(Split(c.value, s[2..]))
  }

  /** Reads up to and over the closing quote. */
  function ReadBody(s: string): (r: Option<Split<string>>)
    ensures r.Some? ==> |r.value.rest| < |s|
    decreases |s|
  {
    if s == "" then None
    else if s[0] == '"' then Some(Split("", s[1..]))
    else
      var c := ReadChar(s);
      if c.None? then None
      else
        var more := ReadBody(c.value.rest);
        if more.None? then None else Some(Split([c.value.value] + more.value.value, more.value.rest))
  }

  function ReadString(s: string): (r: Option<Split<string>>)
    ensures r.Some? ==> |r.value.rest| < |s|
  {
    if s == "" || s[0] != '"' then None else ReadBody(s[1..])
  }

  lemma CharRoundTrip(c: char, rest: string)
    ensures ReadChar(EscapeChar(c) + rest) == Some(Split(c, rest))
    ensures EscapeChar(c)[0] != '"'
  {
    var e := EscapeChar(c);
    var s := e + rest;
    if c as int < 0x20 && e[1] == 'u' {
      assert s[2..] == "00" + [HexDigit(c as int / 16), HexDigit(c as int % 16)] + rest;
      assert FourHex(s[2..]) == Some(c as int);
      assert s[6..] == rest;
    } else if e[0] == '\\' {
      assert s[2..] == rest;
    } else {
      assert s[1..] == rest;
    }
  }

  lemma Associate(a: string, b: string, c: string, d: string)
    ensures a + b + c + d == a + (b + c + d)
  {
  }

  lemma {:induction false} BodyRoundTrip(s: string, rest: string)
    ensures ReadBody(Escape(s) + "\"" + rest) == Some(Split(s, rest))
  {
    if s == "" {
      assert ("\"" + rest)[1..] == rest;
      assert Escape(s) + "\"" + rest == "\"" + rest;
    } else {
      var tail := Escape(s[1..]) + "\"" + rest;
      CharRoundTrip(s[0], tail);
      BodyRoundTrip(s[1..], rest);
      Associate(EscapeChar(s[0]), Escape(s[1..]), "\"", rest);
      assert [s[0]] + s[1..] == s;
    }
  }

  lemma Quoted(e: string, rest: string)
    ensures ("\"" + e + "\"" + rest)[1..] == e + "\"" + rest
  {
  }

  lemma StringRoundTrip(s: string, rest: string)
    ensures ReadString(Quote(s) + rest) == Some(Split(s, rest))
  {
    BodyRoundTrip(s, rest);
    Quoted(Escape(s), rest);
  }

  // ---------- cells ----------

  datatype Scalar = SNull | SBool(b: bool) | SNumber(text: string) | SString(s: string)

  predicate NumberChar(c: char) {
    '0' <= c <= '9' || c == '+' || c == '-' || c == '.' || c == 'e' || c == 'E'
  }

  ghost predicate NumberText(s: string) {
    s != "" && forall i :: 0 <= i < |s| ==> NumberChar(s[i])
  }

  function Digits(n: nat): (s: string)
    ensures NumberText(s)
  {
    if n < 10 then ["0123456789"[n]] else Digits(n / 10) + ["0123456789"[n % 10]]
  }

  function IntText(i: int): (s: string)
    ensures NumberText(s)
  {
    if i < 0 then "-" + Digits(-i) else Digits(i)
  }

  /** How finite floats print. */
  type FloatText = nat -> string

  ghost predicate IsFloatText(f: FloatText) {
    forall n: nat :: NumberText(f(n))
  }

  /** `cell_to_json`: a float without a JSON number becomes null. */
  function CellToJson(v: Value, f: FloatText): Scalar {
    match v
    case Null => SNull
    case Int64(i) => SNumber(IntText(i))
    case Float64(Finite(n)) => SNumber(f(n))
    case Float64(NonFinite(_)) => SNull
    case Bool(b) => SBool(b)
    case Utf8(s) => SString(s)
  }

  function DigitsValue(s: string): int {
    if s == "" then 0 else 10 * DigitsValue(s[..|s| - 1]) + (s[|s| - 1] as int - '0' as int)
  }

  lemma {:induction false} DigitsReadBack(n: nat)
    ensures DigitsValue(Digits(n)) == n
  {
    var s := Digits(n);
    if n < 10 {
      assert s[..0] == "" && s[0] as int - '0' as int == n;
    } else {
      DigitsReadBack(n / 10);
      assert s[..|s| - 1] == Digits(n / 10);
      assert s[|s| - 1] as int - '0' as int == n % 10;
    }
  }

  ghost predicate AllDigits(s: string) {
    s != "" && forall i :: 0 <= i < |s| ==> '0' <= s[i] <= '9'
  }

  lemma {:induction false} OnlyDigits(n: nat)
    ensures AllDigits(Digits(n))
  {
    if n >= 10 {
      OnlyDigits(n / 10);
    }
  }

  /** The number an integer text stands for. */
  function IntValue(s: string): int {
    if s != "" && s[0] == '-' then -DigitsValue(s[1..]) else DigitsValue(s)
  }

  lemma NegativeText(i: int, n: nat)
    requires i < 0 && n == -i
    ensures IntText(i) == "-" + Digits(n)
  {
  }

  lemma SignedValue(s: string, digits: string)
    requires s == "-" + digits
    ensures IntValue(s) == -DigitsValue(digits)
  {
    assert s[1..] == digits;
  }

  lemma UnsignedValue(s: string)
    requires s != "" && s[0] != '-'
    ensures IntValue(s) == DigitsValue(s)
  {
  }

  lemma IntReadsBack(i: int)
    ensures IntValue(IntText(i)) == i
  {
    if i < 0 {
      NegativeText(i, -i);
      DigitsReadBack(-i);
      SignedValue(IntText(i), Digits(-i));
    } else {
      DigitsReadBack(i);
      OnlyDigits(i);
      UnsignedValue(Digits(i));
    }
  }

  /** Without a point or an exponent. */
  predicate Pointless(s: string) {
    '.' !in s && 'e' !in s
  }

  lemma DigitsArePointless(s: string, digits: string)
    requires AllDigits(digits) && (s == digits || s == "-" + digits)
    ensures Pointless(s)
  {
  }

  lemma IntTextIsPointless(i: int)
    ensures Pointless(IntText(i))
  {
    if i < 0 {
      NegativeText(i, -i);
      OnlyDigits(-i);
      DigitsArePointless(IntText(i), Digits(-i));
    } else {
      OnlyDigits(i);
      DigitsArePointless(IntText(i), Digits(i));
    }
  }

  /** Floats print distinctly, and never as an integer does: with a point or an exponent. */
  ghost predicate DistinctFloatText(f: FloatText) {
    && IsFloatText(f)
    && (forall m: nat, n: nat :: f(m) == f(n) ==> m == n)
    && (forall n: nat :: !Pointless(f(n)))
  }

  /** A cell is lost in JSON only if it is null or a non-finite float, which both print as null. */
  lemma JsonDeterminesCell(a: Value, b: Value, f: FloatText)
    requires DistinctFloatText(f) && CellToJson(a, f) == CellToJson(b, f)
    ensures a == b || (CellToJson(a, f) == SNull && LostInJson(a) && LostInJson(b))
  {
    if a.Int64? && b.Int64? {
      IntReadsBack(a.int64);
      IntReadsBack(b.int64);
    } else if a.Int64? {
      IntTextIsPointless(a.int64);
    } else if b.Int64? {
      IntTextIsPointless(b.int64);
    }
  }

  /** An integer as JSON has it: digits without a needless zero in front, and a sign only before a negative one. */
  ghost predicate Canonical(s: string) {
    || s == "0"
    || (AllDigits(s) && s[0] != '0')
    || (|s| > 1 && s[0] == '-' && AllDigits(s[1..]) && s[1] != '0')
  }

  lemma {:induction false} NoLeadingZero(n: nat)
    requires n > 0
    ensures AllDigits(Digits(n)) && Digits(n)[0] != '0'
  {
    if n >= 10 {
      NoLeadingZero(n / 10);
    }
  }

  lemma DigitsAreCanonical(s: string, digits: string)
    requires AllDigits(digits) && digits[0] != '0' && (s == digits || s == "-" + digits)
    ensures Canonical(s)
  {
    if s == "-" + digits {
      assert s[1..] == digits;
    }
  }

  lemma IntTextIsCanonical(i: int)
    ensures Canonical(IntText(i))
  {
    if i < 0 {
      NegativeText(i, -i);
      NoLeadingZero(-i);
      DigitsAreCanonical(IntText(i), Digits(-i));
    } else if i > 0 {
      NoLeadingZero(i);
      DigitsAreCanonical(IntText(i), Digits(i));
    } else {
      assert Digits(0) == "0";
    }
  }

  /** What a JSON scalar says of the cell it stands for. */
  ghost predicate Says(j: Scalar, v: Value, f: FloatText) {
    match j
    case SNull => LostInJson(v)
    case SBool(b) => v == Bool(b)
    case SString(s) => v == Utf8(s)
    case SNumber(text) =>
      || (v.Int64? && Canonical(text) && IntValue(text) == v.int64)
      || (v.Float64? && v.float64.Finite? && text == f(v.float64.literal))
  }

  /** Every cell is written as what stands for it: its truth, its text, its number, or null if it has none. */
  lemma CellSays(v: Value, f: FloatText)
    ensures Says(CellToJson(v, f), v, f)
  {
    if v.Int64? {
      IntReadsBack(v.int64);
      IntTextIsCanonical(v.int64);
    }
  }

  predicate LostInJson(v: Value) {
    v.Null? || (v.Float64? && v.float64.NonFinite?)
  }

  ghost predicate Printable(v: Scalar) {
    v.SNumber? ==> NumberText(v.text)
  }

  function Print(v: Scalar): string {
    match v
    case SNull => "null"
    case SBool(b) => if b then "true" else "false"
    case SNumber(text) => text
    case SString(s) => Quote(s)
  }

  function NumberPrefix(s: string): (n: nat)
    ensures n <= |s|
  {
    if s == "" || !NumberChar(s[0]) then 0 else 1 + NumberPrefix(s[1..])
  }

  function ReadScalar(s: string): (r: Option<Split<Scalar>>)
    ensures r.Some? ==> |r.value.rest| < |s|
  {
    if s == "" then None
    else if s[0] == '"' then
      var r := ReadString(s);
      if r.None? then None else Some(Split(SString(r.value.value), r.value.rest))
    else if "null" <= s then Some(Split(SNull, s[4..]))
    else if "true" <= s then Some(Split(SBool(true), s[4..]))
    else if "false" <= s then Some(Split(SBool(false), s[5..]))
    else
      var n := NumberPrefix(s);
      if n == 0 then None else Some(Split(SNumber(s[..n]), s[n..]))
  }

  lemma {:induction false} NumberPrefixOf(text: string, rest: string)
    requires forall i :: 0 <= i < |text| ==> NumberChar(text[i])
    requires rest == "" || !NumberChar(rest[0])
    ensures NumberPrefix(text + rest) == |text|
  {
    if text == "" {
      assert text + rest == rest;
    } else {
      assert (text + rest)[1..] == text[1..] + rest;
      NumberPrefixOf(text[1..], rest);
    }
  }

  lemma ScalarRoundTrip(v: Scalar, rest: string)
    requires Printable(v) && (rest == "" || !NumberChar(rest[0]))
    ensures ReadScalar(Print(v) + rest) == Some(Split(v, rest))
  {
    match v {
      case SString(s) => StringRoundTrip(s, rest);
      case SNumber(text) =>
        NumberPrefixOf(text, rest);
        assert (text + rest)[0] == text[0];
        assert (text + rest)[..|text|] == text && (text + rest)[|text|..] == rest;
      case SNull => assert ("null" + rest)[4..] == rest;
      case SBool(b) =>
        if b {
          assert ("true" + rest)[4..] == rest;
        } else {
          assert ("false" + rest)[5..] == rest;
        }
    }
  }

  // ---------- objects ----------

  type Object = seq<(string, Scalar)>

  function PrintEntry(e: (string, Scalar)): string {
    Quote(e.0) + ":" + Print(e.1)
  }

  function PrintEntries(o: Object): string {
    if o == [] then ""
    else if |o| == 1 then PrintEntry(o[0])
    else PrintEntry(o[0]) + "," + PrintEntries(o[1..])
  }

  function PrintObject(o: Object): string {
    "{" + PrintEntries(o) + "}"
  }

  function ReadEntry(s: string): (r: Option<Split<(string, Scalar)>>)
    ensures r.Some? ==> |r.value.rest| < |s|
  {
    var name := ReadString(s);
    if name.None? || name.value.rest == "" || name.value.rest[0] != ':' then None
    else
      var v := ReadScalar(name.value.rest[1..]);
      if v.None? then None else Some(Split((name.value.value, v.value.value), v.value.rest))
  }

  /** One or more entries, up to and over the closing brace. */
  function ReadEntries(s: string): Option<Split<Object>>
    decreases |s|
  {
    var e := ReadEntry(s);
    if e.None? || e.value.rest == "" then None
    else if e.value.rest[0] == '}' then Some(Split([e.value.value], e.value.rest[1..]))
    else if e.value.rest[0] != ',' then None
    else
      var more := ReadEntries(e.value.rest[1..]);
      if more.None? then None else Some(Split([e.value.value] + more.value.value, more.value.rest))
  }

  /** A line holding exactly one flat object. */
  function ReadObject(s: string): Option<Object> {
    if s == "{}" then Some([])
    else if s == "" || s[0] != '{' then None
    else
      var r := ReadEntries(s[1..]);
      if r.None? || r.value.rest != "" then None else Some(r.value.value)
  }

  ghost predicate PrintableObject(o: Object) {
    forall i :: 0 <= i < |o| ==> Printable(o[i].1)
  }

  lemma EntryReads(s: string, name: string, text: string, v: Scalar, rest: string)
    requires ReadString(s) == Some(Split(name, ":" + text)) && ReadScalar(text) == Some(Split(v, rest))
    ensures ReadEntry(s) == Some(Split((name, v), rest))
  {
    assert (":" + text)[1..] == text;
  }

  lemma Colon(a: string, b: string, c: string)
    ensures a + ":" + b + c == a + (":" + (b + c))
  {
  }

  lemma EntryRoundTrip(e: (string, Scalar), rest: string)
    requires Printable(e.1) && rest != "" && !NumberChar(rest[0])
    ensures ReadEntry(PrintEntry(e) + rest) == Some(Split(e, rest))
  {
    var text := Print(e.1) + rest;
    Colon(Quote(e.0), Print(e.1), rest);
    StringRoundTrip(e.0, ":" + text);
    ScalarRoundTrip(e.1, rest);
    EntryReads(PrintEntry(e) + rest, e.0, text, e.1, rest);
  }

  lemma ReadsOn(s: string, e: (string, Scalar), tail: string, more: Object, rest: string)
    requires ReadEntry(s) == Some(Split(e, "," + tail)) && ReadEntries(tail) == Some(Split(more, rest))
    ensures ReadEntries(s) == Some(Split([e] + more, rest))
  {
    assert ("," + tail)[1..] == tail;
  }

  lemma ReadsLast(s: string, e: (string, Scalar), rest: string)
    requires ReadEntry(s) == Some(Split(e, "}" + rest))
    ensures ReadEntries(s) == Some(Split([e], rest))
  {
    assert ("}" + rest)[1..] == rest;
  }

  lemma Regroup(a: string, b: string, c: string)
    ensures a + "," + b + c == a + ("," + (b + c))
  {
  }

  lemma {:induction false} EntriesRoundTrip(o: Object, rest: string)
    requires o != [] && PrintableObject(o)
    ensures ReadEntries(PrintEntries(o) + ("}" + rest)) == Some(Split(o, rest))
  {
    var s := PrintEntries(o) + ("}" + rest);
    if |o| == 1 {
      EntryRoundTrip(o[0], "}" + rest);
      ReadsLast(s, o[0], rest);
      assert o == [o[0]];
    } else {
      var tail := PrintEntries(o[1..]) + ("}" + rest);
      Regroup(PrintEntry(o[0]), PrintEntries(o[1..]), "}" + rest);
      EntryRoundTrip(o[0], "," + tail);
      EntriesRoundTrip(o[1..], rest);
      ReadsOn(s, o[0], tail, o[1..], rest);
      assert [o[0]] + o[1..] == o;
    }
  }

  lemma Braced(s: string)
    requires s != "" && s[0] == '"'
    ensures ("{" + s + "}")[1..] == s + ("}" + "")
    ensures "{" + s + "}" != "{}"
  {
    assert ("{" + s + "}")[1] == '"';
  }

  /** Every printed object reads back as itself. */
  lemma ObjectRoundTrip(o: Object)
    requires PrintableObject(o)
    ensures ReadObject(PrintObject(o)) == Some(o)
  {
    if o != [] {
      EntriesRoundTrip(o, "");
      Braced(PrintEntries(o));
    }
  }

  // ---------- rows ----------

  /** `serde_json::Map::insert`: a repeated key keeps its place and takes the new value. */
  function Insert(o: Object, name: string, v: Scalar): Object {
    if o == [] then [(name, v)]
    else if o[0].0 == name then [(name, v)] + o[1..]
    else [o[0]] + Insert(o[1..], name, v)
  }

  datatype ExportError = UnknownColumn(name: string) | IndexPanic

  predicate Selectable(ds: DataSet, columns: seq<string>) {
    forall k :: 0 <= k < |columns| ==> ds.schema.IndexOf(columns[k]).Some?
  }

  predicate Reaches(row: Row, schema: Schema, columns: seq<string>) {
    forall k :: 0 <= k < |columns| ==>
      schema.IndexOf(columns[k]).Some? && schema.IndexOf(columns[k]).value < |row|
  }

  /** The object of one row: the selected cells, inserted in column order. */
  function RowObject(row: Row, schema: Schema, columns: seq<string>, f: FloatText): Object
    requires Reaches(row, schema, columns)
  {
    if columns == [] then []
    else
      var last := columns[|columns| - 1];
      Insert(RowObject(row, schema, columns[..|columns| - 1], f), last,
             CellToJson(row[schema.IndexOf(last).value], f))
  }

  ghost predicate Keyed(o: Object) {
    forall i, j :: 0 <= i < j < |o| ==> o[i].0 != o[j].0
  }

  lemma {:induction false} InsertMeans(o: Object, name: string, v: Scalar)
    requires Keyed(o) && PrintableObject(o) && Printable(v)
    ensures var p := Insert(o, name, v);
      && Keyed(p) && PrintableObject(p)
      && (forall e :: e in p <==> e == (name, v) || (e in o && e.0 != name))
  {
    if o != [] {
      var p := Insert(o, name, v);
      forall i | 0 < i < |o| ensures o[i].0 != o[0].0 {}
      if o[0].0 == name {
        assert forall e :: e in o <==> e == o[0] || e in o[1..];
      } else {
        assert Keyed(o[1..]) && PrintableObject(o[1..]);
        InsertMeans(o[1..], name, v);
        assert forall e :: e in o <==> e == o[0] || e in o[1..];
        var q := Insert(o[1..], name, v);
        forall j | 0 <= j < |q| ensures q[j].0 != o[0].0 {
          assert q[j] in q;
        }
      }
    }
  }

  lemma {:induction false} InsertAppends(o: Object, name: string, v: Scalar)
    requires forall i :: 0 <= i < |o| ==> o[i].0 != name
    ensures Insert(o, name, v) == o + [(name, v)]
  {
    if o != [] {
      InsertAppends(o[1..], name, v);
    }
  }

  /** The object has each of the columns once, with that column's cell, and nothing else. */
  ghost predicate Selects(o: Object, row: Row, schema: Schema, columns: seq<string>, f: FloatText)
    requires Reaches(row, schema, columns)
  {
    && Keyed(o) && PrintableObject(o)
    && (forall e :: e in o <==> e.0 in columns && e.1 == CellOf(row, schema, e.0, f))
  }

  /** The JSON of a named column's cell. */
  function CellOf(row: Row, schema: Schema, name: string, f: FloatText): Scalar {
    var at := schema.IndexOf(name);
    if at.Some? && at.value < |row| then CellToJson(row[at.value], f) else SNull
  }

  ghost predicate DistinctColumns(columns: seq<string>) {
    forall i, j :: 0 <= i < j < |columns| ==> columns[i] != columns[j]
  }

  lemma {:induction false} RowObjectSelects(row: Row, schema: Schema, columns: seq<string>, f: FloatText)
    requires Reaches(row, schema, columns) && IsFloatText(f)
    ensures Selects(RowObject(row, schema, columns, f), row, schema, columns, f)
    decreases |columns|
  {
    if columns != [] {
      var n := |columns| - 1;
      var prefix, last := columns[..n], columns[n];
      RowObjectSelects(row, schema, prefix, f);
      InsertMeans(RowObject(row, schema, prefix, f), last, CellOf(row, schema, last, f));
      assert columns == prefix + [last];
      assert forall c :: c in columns <==> c in prefix || c == last;
    }
  }

  /** The selected cells under their columns' names, in the requested order. */
  function Selection(row: Row, schema: Schema, columns: seq<string>, f: FloatText): (o: Object)
    ensures |o| == |columns|
  {
    if columns == [] then []
    else
      var n := |columns| - 1;
      Selection(row, schema, columns[..n], f) + [(columns[n], CellOf(row, schema, columns[n], f))]
  }

  lemma {:induction false} SelectionNames(row: Row, schema: Schema, columns: seq<string>, f: FloatText, k: nat)
    requires k < |columns|
    ensures Selection(row, schema, columns, f)[k] == (columns[k], CellOf(row, schema, columns[k], f))
    decreases |columns|
  {
    var n := |columns| - 1;
    if k < n {
      SelectionNames(row, schema, columns[..n], f, k);
    }
  }

  /** A key that is there keeps its place and takes the new value; no other entry moves or changes. */
  lemma {:induction false} InsertInPlace(o: Object, name: string, v: Scalar, k: nat)
    requires Keyed(o) && k < |o| && o[k].0 == name
    ensures Insert(o, name, v) == o[k := (name, v)]
  {
    if k > 0 {
      assert o[0].0 != name;
      InsertInPlace(o[1..], name, v, k - 1);
    }
  }

  /** The positions at which a column is named for the first time, in order. */
  ghost predicate FirstUses(columns: seq<string>, at: seq<nat>) {
    && (forall i, j :: 0 <= i < j < |at| ==> at[i] < at[j])
    && (forall k: nat :: k in at <==> k < |columns| && columns[k] !in columns[..k])
  }

  /** The object lists the columns at the given positions, with their cells. */
  ghost predicate ListsAt(o: Object, row: Row, schema: Schema, columns: seq<string>, f: FloatText, at: seq<nat>) {
    && |at| == |o|
    && forall i :: 0 <= i < |at| ==>
         at[i] < |columns| && o[i] == (columns[at[i]], CellOf(row, schema, columns[at[i]], f))
  }

  lemma FirstUsesSnoc(front: seq<string>, at: seq<nat>, last: string)
    requires FirstUses(front, at)
    ensures FirstUses(front + [last], if last in front then at else at + [|front|])
  {
    var columns := front + [last];
    forall k: nat | k < |front| ensures columns[..k] == front[..k] && columns[k] == front[k] {}
    assert columns[..|front|] == front;
    forall i | 0 <= i < |at| ensures at[i] < |front| {
      assert at[i] in at;
    }
  }

  /** A repeated column shows once, where it was named first. */
  lemma {:induction false} RowObjectListsFirstUses(row: Row, schema: Schema, columns: seq<string>, f: FloatText)
    returns (at: seq<nat>)
    requires Reaches(row, schema, columns) && IsFloatText(f)
    ensures FirstUses(columns, at) && ListsAt(RowObject(row, schema, columns, f), row, schema, columns, f, at)
    decreases |columns|
  {
    at := [];
    if columns != [] {
      var n := |columns| - 1;
      var front, last := columns[..n], columns[n];
      var o := RowObject(row, schema, front, f);
      at := RowObjectListsFirstUses(row, schema, front, f);
      FirstUsesSnoc(front, at, last);
      assert columns == front + [last];
      RowObjectSelects(row, schema, front, f);
      if last in front {
        StaysListed(o, row, schema, front, f, last);
      } else {
        NewlyListed(o, row, schema, front, f, at, last);
        at := at + [n];
      }
    }
  }

  lemma NewlyListed(o: Object, row: Row, schema: Schema, front: seq<string>, f: FloatText, at: seq<nat>, last: string)
    requires Reaches(row, schema, front) && Selects(o, row, schema, front, f) && last !in front
    requires ListsAt(o, row, schema, front, f, at)
    ensures ListsAt(Insert(o, last, CellOf(row, schema, last, f)), row, schema, front + [last], f, at + [|front|])
  {
    forall i | 0 <= i < |o| ensures o[i].0 != last {
      assert o[i] in o;
    }
    InsertAppends(o, last, CellOf(row, schema, last, f));
  }

  lemma StaysListed(o: Object, row: Row, schema: Schema, front: seq<string>, f: FloatText, last: string)
    requires Reaches(row, schema, front) && Selects(o, row, schema, front, f) && last in front
    ensures Insert(o, last, CellOf(row, schema, last, f)) == o
  {
    var e := (last, CellOf(row, schema, last, f));
    assert e in o;
    var k :| 0 <= k < |o| && o[k] == e;
    InsertInPlace(o, last, e.1, k);
  }

  /** If no column repeats, the object lists the columns in the requested order. */
  lemma {:induction false} RowObjectInOrder(row: Row, schema: Schema, columns: seq<string>, f: FloatText)
    requires Reaches(row, schema, columns) && DistinctColumns(columns)
    ensures RowObject(row, schema, columns, f) == Selection(row, schema, columns, f)
    decreases |columns|
  {
    if columns != [] {
      var n := |columns| - 1;
      var before := RowObject(row, schema, columns[..n], f);
      assert Reaches(row, schema, columns[..n]) && DistinctColumns(columns[..n]);
      RowObjectInOrder(row, schema, columns[..n], f);
      forall k | 0 <= k < n ensures before[k].0 != columns[n] {
        SelectionNames(row, schema, columns[..n], f, k);
      }
      InsertAppends(before, columns[n], CellOf(row, schema, columns[n], f));
    }
  }

  // ---------- lines ----------

  function Terminated(lines: seq<string>): string {
    if lines == [] then "" else lines[0] + "\n" + Terminated(lines[1..])
  }

  lemma {:induction false} TerminatedSnoc(lines: seq<string>, line: string)
    ensures Terminated(lines + [line]) == Terminated(lines) + line + "\n"
  {
    if lines == [] {
      assert ([] + [line])[1..] == [];
    } else {
      assert (lines + [line])[1..] == lines[1..] + [line];
      TerminatedSnoc(lines[1..], line);
    }
  }

  function RowLine(row: Row, schema: Schema, columns: seq<string>, f: FloatText): string
    requires Reaches(row, schema, columns)
  {
    PrintObject(RowObject(row, schema, columns, f))
  }

  ghost predicate AllReach(rows: seq<Row>, schema: Schema, columns: seq<string>) {
    forall i :: 0 <= i < |rows| ==> Reaches(rows[i], schema, columns)
  }

  function RowLines(rows: seq<Row>, schema: Schema, columns: seq<string>, f: FloatText): (lines: seq<string>)
    requires AllReach(rows, schema, columns)
    ensures |lines| == |rows|
    ensures forall i :: 0 <= i < |rows| ==> lines[i] == RowLine(rows[i], schema, columns, f)
  {
    seq(|rows|, i requires 0 <= i < |rows| => RowLine(rows[i], schema, columns, f))
  }

  lemma OneMoreLine(rows: seq<Row>, i: nat, schema: Schema, columns: seq<string>, f: FloatText)
    requires i < |rows| && AllReach(rows[..i], schema, columns) && Reaches(rows[i], schema, columns)
    ensures AllReach(rows[..i + 1], schema, columns)
    ensures Terminated(RowLines(rows[..i + 1], schema, columns, f))
         == Terminated(RowLines(rows[..i], schema, columns, f)) + RowLine(rows[i], schema, columns, f) + "\n"
  {
    assert rows[..i + 1] == rows[..i] + [rows[i]];
    var line := RowLine(rows[i], schema, columns, f);
    assert RowLines(rows[..i + 1], schema, columns, f) == RowLines(rows[..i], schema, columns, f) + [line];
    TerminatedSnoc(RowLines(rows[..i], schema, columns, f), line);
  }

  /** The inner loop of `dataset_to_jsonl`: one row's object, or nothing if indexing panics. */
  method RowToObject(row: Row, schema: Schema, columns: seq<string>, idx: seq<nat>, f: FloatText)
    returns (m: Option<Object>)
    requires |idx| == |columns| && forall k :: 0 <= k < |columns| ==> schema.IndexOf(columns[k]) == Some(idx[k])
    ensures m.Some? <==> Reaches(row, schema, columns)
    ensures m.Some? ==> m.value == RowObject(row, schema, columns, f)
  {
    var o: Object := [];
    for k := 0 to |columns|
      invariant Reaches(row, schema, columns[..k])
      invariant o == RowObject(row, schema, columns[..k], f)
    {
      if idx[k] >= |row| {
        return None;
      }
      assert columns[..k + 1][..k] == columns[..k];
      o := Insert(o, columns[k], CellToJson(row[idx[k]], f));
    }
    assert columns[..|columns|] == columns;
    m := Some(o);
  }

  /** `dataset_to_jsonl`. Unknown columns are reported; a row shorter than a column's index panics. */
  method DatasetToJsonl(ds: DataSet, columns: seq<string>, f: FloatText) returns (r: Result<string, ExportError>)
    ensures r.Ok? <==> Selectable(ds, columns) && AllReach(ds.rows, ds.schema, columns)
    ensures r.Ok? ==> r.value == Terminated(RowLines(ds.rows, ds.schema, columns, f))
    ensures r.Err? && Selectable(ds, columns) ==> r.error == IndexPanic
    ensures !Selectable(ds, columns) ==>
      exists k :: 0 <= k < |columns|
        && ds.schema.IndexOf(columns[k]).None? && r == Err(UnknownColumn(columns[k]))
        && Selectable(ds, columns[..k])
  {
    var idx: seq<nat> := [];
    for k := 0 to |columns|
      invariant |idx| == k && forall l :: 0 <= l < k ==> ds.schema.IndexOf(columns[l]) == Some(idx[l])
    {
      var at := ds.schema.IndexOf(columns[k]);
      if at.None? {
        return Err(UnknownColumn(columns[k]));
      }
      idx := idx + [at.value];
    }
    r := PrintRows(ds, columns, idx, f);
  }

  /** The row loop of `dataset_to_jsonl`. */
  method PrintRows(ds: DataSet, columns: seq<string>, idx: seq<nat>, f: FloatText)
    returns (r: Result<string, ExportError>)
    requires |idx| == |columns| && forall k :: 0 <= k < |columns| ==> ds.schema.IndexOf(columns[k]) == Some(idx[k])
    ensures r.Ok? <==> AllReach(ds.rows, ds.schema, columns)
    ensures r.Ok? ==> r.value == Terminated(RowLines(ds.rows, ds.schema, columns, f))
    ensures r.Err? ==> r.error == IndexPanic
  {
    var out := "";
    for i := 0 to |ds.rows|
      invariant AllReach(ds.rows[..i], ds.schema, columns)
      invariant out == Terminated(RowLines(ds.rows[..i], ds.schema, columns, f))
    {
      var m := RowToObject(ds.rows[i], ds.schema, columns, idx, f);
      if m.None? {
        return Err(IndexPanic);
      }
      OneMoreLine(ds.rows, i, ds.schema, columns, f);
      out := out + PrintObject(m.value) + "\n";
    }
    assert ds.rows[..|ds.rows|] == ds.rows;
    r := Ok(out);
  }

  // ---------- splitting again ----------

  /** The line breaks of Python's `str.splitlines`. */
  predicate PythonBreak(c: char) {
    || 10 <= c as int <= 13 || 0x1C <= c as int <= 0x1E
    || c as int == 0x85 || c as int == 0x2028 || c as int == 0x2029
  }

  predicate Newline(c: char) {
    c == '\n'
  }

  function FirstBreak(s: string, breaks: char -> bool): (n: nat)
    ensures n <= |s| && (n < |s| ==> breaks(s[n]))
    ensures forall i :: 0 <= i < n ==> !breaks(s[i])
  {
    if s == "" || breaks(s[0]) then 0 else 1 + FirstBreak(s[1..], breaks)
  }

  /** The pieces between breaks, without an empty one at the end; a carriage return and newline are one break. */
  function SplitLines(s: string, breaks: char -> bool): (lines: seq<string>)
    decreases |s|
  {
    var n := FirstBreak(s, breaks);
    if s == "" then []
    else if n == |s| then [s]
    else
      var width := if s[n] == '\r' && n + 1 < |s| && s[n + 1] == '\n' then 2 else 1;
      [s[..n]] + SplitLines(s[n + width..], breaks)
  }

  ghost predicate Unbroken(line: string, breaks: char -> bool) {
    forall i :: 0 <= i < |line| ==> !breaks(line[i])
  }

  lemma SplitFirst(line: string, rest: string, breaks: char -> bool)
    requires breaks('\n') && Unbroken(line, breaks)
    ensures SplitLines(line + "\n" + rest, breaks) == [line] + SplitLines(rest, breaks)
  {
    var s := line + "\n" + rest;
    var n := |line|;
    assert s[n] == '\n' && s[..n] == line && s[n + 1..] == rest;
    assert forall i :: 0 <= i < n ==> s[i] == line[i];
    assert FirstBreak(s, breaks) == n;
  }

  lemma {:induction false} SplitTerminated(lines: seq<string>, breaks: char -> bool)
    requires breaks('\n') && forall i :: 0 <= i < |lines| ==> Unbroken(lines[i], breaks)
    ensures SplitLines(Terminated(lines), breaks) == lines
  {
    if lines != [] {
      SplitTerminated(lines[1..], breaks);
      SplitFirst(lines[0], Terminated(lines[1..]), breaks);
    }
  }

  lemma {:induction false} PiecesUnbroken(s: string, breaks: char -> bool)
    ensures forall i :: 0 <= i < |SplitLines(s, breaks)| ==> Unbroken(SplitLines(s, breaks)[i], breaks)
    decreases |s|
  {
    var n := FirstBreak(s, breaks);
    if s != "" && n < |s| {
      var width := if s[n] == '\r' && n + 1 < |s| && s[n + 1] == '\n' then 2 else 1;
      PiecesUnbroken(s[n + width..], breaks);
    }
  }

  /** Splitting terminated lines gives them back exactly when none of them contains a break. */
  lemma SplitsBackIff(lines: seq<string>, breaks: char -> bool)
    requires breaks('\n')
    ensures SplitLines(Terminated(lines), breaks) == lines <==>
      forall i :: 0 <= i < |lines| ==> Unbroken(lines[i], breaks)
  {
    PiecesUnbroken(Terminated(lines), breaks);
    if forall i :: 0 <= i < |lines| ==> Unbroken(lines[i], breaks) {
      SplitTerminated(lines, breaks);
    }
  }

  // ---------- which lines break ----------

  /** Python's breaks that JSON leaves unescaped: U+0085, U+2028 and U+2029. */
  predicate Exotic(c: char) {
    c as int == 0x85 || c as int == 0x2028 || c as int == 0x2029
  }

  ghost predicate NoExotic(s: string) {
    forall i :: 0 <= i < |s| ==> !Exotic(s[i])
  }

  ghost predicate NoControl(s: string) {
    forall i :: 0 <= i < |s| ==> s[i] as int >= 0x20
  }

  lemma Joined(a: string, b: string)
    ensures NoExotic(a + b) <==> NoExotic(a) && NoExotic(b)
    ensures NoControl(a + b) <==> NoControl(a) && NoControl(b)
  {
    var s := a + b;
    assert forall i :: 0 <= i < |a| ==> s[i] == a[i];
    assert forall i :: 0 <= i < |b| ==> s[|a| + i] == b[i];
  }

  lemma EscapeCharClean(c: char)
    ensures NoControl(EscapeChar(c)) && (NoExotic(EscapeChar(c)) <==> !Exotic(c))
  {
    if EscapeChar(c) == [c] {
      assert [c][0] == c;
    }
  }

  lemma {:induction false} EscapeClean(s: string)
    ensures NoControl(Escape(s)) && (NoExotic(Escape(s)) <==> NoExotic(s))
  {
    if s != "" {
      EscapeCharClean(s[0]);
      EscapeClean(s[1..]);
      Joined(EscapeChar(s[0]), Escape(s[1..]));
      Joined([s[0]], s[1..]);
      assert s == [s[0]] + s[1..] && (NoExotic([s[0]]) <==> !Exotic([s[0]][0]));
    }
  }

  lemma QuoteClean(s: string)
    ensures NoControl(Quote(s)) && (NoExotic(Quote(s)) <==> NoExotic(s))
  {
    EscapeClean(s);
    Joined("\"", Escape(s));
    Joined("\"" + Escape(s), "\"");
  }

  /** No name and no string in the object holds one of the three characters. */
  ghost predicate ClearEntry(e: (string, Scalar)) {
    NoExotic(e.0) && (e.1.SString? ==> NoExotic(e.1.s))
  }

  ghost predicate ClearObject(o: Object) {
    forall i :: 0 <= i < |o| ==> ClearEntry(o[i])
  }

  lemma PrintClean(v: Scalar)
    requires Printable(v)
    ensures NoControl(Print(v)) && (NoExotic(Print(v)) <==> (v.SString? ==> NoExotic(v.s)))
  {
    if v.SString? {
      QuoteClean(v.s);
    }
  }

  lemma EntryClean(e: (string, Scalar))
    requires Printable(e.1)
    ensures NoControl(PrintEntry(e)) && (NoExotic(PrintEntry(e)) <==> ClearEntry(e))
  {
    QuoteClean(e.0);
    PrintClean(e.1);
    Joined(Quote(e.0), ":");
    Joined(Quote(e.0) + ":", Print(e.1));
  }

  lemma {:induction false} EntriesClean(o: Object)
    requires PrintableObject(o)
    ensures NoControl(PrintEntries(o)) && (NoExotic(PrintEntries(o)) <==> ClearObject(o))
  {
    if o != [] {
      EntryClean(o[0]);
      if |o| > 1 {
        EntriesClean(o[1..]);
        Joined(PrintEntry(o[0]), ",");
        Joined(PrintEntry(o[0]) + ",", PrintEntries(o[1..]));
        assert ClearObject(o) <==> ClearEntry(o[0]) && ClearObject(o[1..]) by {
          assert forall i :: 0 < i < |o| ==> o[i] == o[1..][i - 1];
        }
      }
    }
  }

  /** A printed object never contains a newline, and a Python line break only inside a name or string that holds one. */
  lemma ObjectBreaks(o: Object)
    requires PrintableObject(o)
    ensures Unbroken(PrintObject(o), Newline)
    ensures Unbroken(PrintObject(o), PythonBreak) <==> ClearObject(o)
  {
    EntriesClean(o);
    Joined("{", PrintEntries(o));
    Joined("{" + PrintEntries(o), "}");
    var s := PrintObject(o);
    assert NoControl(s) && (NoExotic(s) <==> ClearObject(o));
    assert forall i :: 0 <= i < |s| ==> (PythonBreak(s[i]) <==> Exotic(s[i]));
  }

  // ---------- what an export says ----------

  /**
    The export, split at newlines, is one line per row, in order; each line reads back as an object
    that holds that row's selected cells and nothing else.
   */
  lemma ExportReadsBack(ds: DataSet, columns: seq<string>, f: FloatText)
    requires AllReach(ds.rows, ds.schema, columns) && IsFloatText(f)
    ensures var lines := SplitLines(Terminated(RowLines(ds.rows, ds.schema, columns, f)), Newline);
      && |lines| == |ds.rows|
      && forall i :: 0 <= i < |ds.rows| ==>
           && ReadObject(lines[i]).Some?
           && Selects(ReadObject(lines[i]).value, ds.rows[i], ds.schema, columns, f)
           && (DistinctColumns(columns) ==> ReadObject(lines[i]).value == Selection(ds.rows[i], ds.schema, columns, f))
  {
    var lines := RowLines(ds.rows, ds.schema, columns, f);
    forall i | 0 <= i < |ds.rows|
      ensures Unbroken(lines[i], Newline)
      ensures ReadObject(lines[i]) == Some(RowObject(ds.rows[i], ds.schema, columns, f))
      ensures Selects(RowObject(ds.rows[i], ds.schema, columns, f), ds.rows[i], ds.schema, columns, f)
      ensures DistinctColumns(columns) ==>
        RowObject(ds.rows[i], ds.schema, columns, f) == Selection(ds.rows[i], ds.schema, columns, f)
    {
      RowObjectSelects(ds.rows[i], ds.schema, columns, f);
      ObjectBreaks(RowObject(ds.rows[i], ds.schema, columns, f));
      ObjectRoundTrip(RowObject(ds.rows[i], ds.schema, columns, f));
      if DistinctColumns(columns) {
        RowObjectInOrder(ds.rows[i], ds.schema, columns, f);
      }
    }
    SplitTerminated(lines, Newline);
  }

  /** The selected names and texts of a row hold none of the three characters. */
  ghost predicate ClearRow(row: Row, schema: Schema, columns: seq<string>, f: FloatText) {
    forall k :: 0 <= k < |columns| ==> ClearEntry((columns[k], CellOf(row, schema, columns[k], f)))
  }

  lemma ClearRowIffClearObject(row: Row, schema: Schema, columns: seq<string>, f: FloatText)
    requires Reaches(row, schema, columns) && IsFloatText(f)
    ensures ClearRow(row, schema, columns, f) <==> ClearObject(RowObject(row, schema, columns, f))
  {
    var o := RowObject(row, schema, columns, f);
    RowObjectSelects(row, schema, columns, f);
    if ClearRow(row, schema, columns, f) {
      forall i | 0 <= i < |o| ensures ClearEntry(o[i]) {
        assert o[i] in o;
        var k :| 0 <= k < |columns| && columns[k] == o[i].0;
      }
    }
    if ClearObject(o) {
      forall k | 0 <= k < |columns| ensures ClearEntry((columns[k], CellOf(row, schema, columns[k], f))) {
        var e := (columns[k], CellOf(row, schema, columns[k], f));
        assert e in o;
      }
    }
  }

  /**
    The Python reader's `splitlines` sees the same lines exactly when no selected name or text of any
    row holds U+0085, U+2028 or U+2029.
   */
  lemma PythonReaderAgreesIff(ds: DataSet, columns: seq<string>, f: FloatText)
    requires AllReach(ds.rows, ds.schema, columns) && IsFloatText(f)
    ensures var lines := RowLines(ds.rows, ds.schema, columns, f);
      SplitLines(Terminated(lines), PythonBreak) == SplitLines(Terminated(lines), Newline) <==>
        forall i :: 0 <= i < |ds.rows| ==> ClearRow(ds.rows[i], ds.schema, columns, f)
  {
    var lines := RowLines(ds.rows, ds.schema, columns, f);
    forall i | 0 <= i < |ds.rows|
      ensures Unbroken(lines[i], Newline)
      ensures Unbroken(lines[i], PythonBreak) <==> ClearRow(ds.rows[i], ds.schema, columns, f)
    {
      RowObjectSelects(ds.rows[i], ds.schema, columns, f);
      ObjectBreaks(RowObject(ds.rows[i], ds.schema, columns, f));
      ClearRowIffClearObject(ds.rows[i], ds.schema, columns, f);
    }
    SplitTerminated(lines, Newline);
    SplitsBackIff(lines, PythonBreak);
  }
}
