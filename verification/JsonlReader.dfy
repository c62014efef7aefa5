/**
  The Python reader of a JSON Lines export to the end (`export_jsonl_records`): which lines it sees,
  which it reads, and when it raises.
 */
module JsonlReader {
  import opened Bytes
  import opened DataModel
  import opened JsonLines
  import opened PythonText

  // ---------- inside and outside of quotes ----------

  datatype Quoting = Outside | Inside | Escaped

  function Next(q: Quoting, c: char): Quoting {
    match q
    case Outside => if c == '"' then Inside else Outside
    case Inside => if c == '"' then Outside else if c == '\\' then Escaped else Inside
    case Escaped => Inside
  }

  /** Where a text begun in `q` ends. No JSON text ends anywhere but outside of quotes. */
  function Scan(s: string, q: Quoting): Quoting {
    if s == "" then q else Scan(s[1..], Next(q, s[0]))
  }

  lemma {:induction false} ScanAppend(a: string, b: string, q: Quoting)
    ensures Scan(a + b, q) == Scan(b, Scan(a, q))
  {
    if a == "" {
      assert a + b == b;
    } else {
      assert (a + b)[1..] == a[1..] + b;
      ScanAppend(a[1..], b, Next(q, a[0]));
    }
  }

  /** The three characters occur inside quotes only. */
  ghost predicate ExoticQuoted(s: string, q: Quoting) {
    s == "" || ((Exotic(s[0]) ==> q.Inside?) && ExoticQuoted(s[1..], Next(q, s[0])))
  }

  lemma {:induction false} ExoticPosition(s: string, q: Quoting, i: nat)
    requires ExoticQuoted(s, q) && i < |s| && Exotic(s[i])
    ensures Scan(s[..i], q) == Inside
  {
    if i > 0 {
      ExoticPosition(s[1..], Next(q, s[0]), i - 1);
      assert s[..i][1..] == s[1..][..i - 1];
    }
  }

  ghost predicate Tidy(s: string, from: Quoting, to: Quoting) {
    ExoticQuoted(s, from) && Scan(s, from) == to
  }

  lemma {:induction false} TidyAppend(a: string, b: string, from: Quoting, mid: Quoting, to: Quoting)
    requires Tidy(a, from, mid) && Tidy(b, mid, to)
    ensures Tidy(a + b, from, to)
  {
    if a == "" {
      assert a + b == b;
    } else {
      assert (a + b)[1..] == a[1..] + b;
      TidyAppend(a[1..], b, Next(from, a[0]), mid, to);
    }
  }

  /** Text without quotes and without the three characters. */
  ghost predicate Unquoted(s: string) {
    forall i :: 0 <= i < |s| ==> s[i] != '"' && !Exotic(s[i])
  }

  lemma {:induction false} UnquotedIsTidy(s: string)
    requires Unquoted(s)
    ensures Tidy(s, Outside, Outside)
  {
    if s != "" {
      UnquotedIsTidy(s[1..]);
    }
  }

  lemma EscapedPair(c: char)
    requires !Exotic(c)
    ensures Tidy(['\\', c], Inside, Inside)
  {
    assert ['\\', c] == ['\\'] + [c];
    TidyAppend(['\\'], [c], Inside, Escaped, Inside);
  }

  lemma {:induction false} PlainInside(s: string)
    requires forall i :: 0 <= i < |s| ==> s[i] != '"' && s[i] != '\\'
    ensures Tidy(s, Inside, Inside)
  {
    if s != "" {
      PlainInside(s[1..]);
    }
  }

  lemma EscapeCharIsTidy(c: char)
    ensures Tidy(EscapeChar(c), Inside, Inside)
  {
    var e := EscapeChar(c);
    if e == [c] {
      PlainInside(e);
    } else if |e| == 2 {
      assert e == ['\\', e[1]] && !Exotic(e[1]);
      EscapedPair(e[1]);
    } else {
      var digits := ['0', '0', HexDigit(c as int / 16), HexDigit(c as int % 16)];
      EscapedPair('u');
      PlainInside(digits);
      TidyAppend(['\\', 'u'], digits, Inside, Inside, Inside);
      assert e == ['\\', 'u'] + digits;
    }
  }

  lemma {:induction false} EscapeIsTidy(s: string)
    ensures Tidy(Escape(s), Inside, Inside)
  {
    if s != "" {
      EscapeCharIsTidy(s[0]);
      EscapeIsTidy(s[1..]);
      TidyAppend(EscapeChar(s[0]), Escape(s[1..]), Inside, Inside, Inside);
    }
  }

  lemma QuoteIsTidy(s: string)
    ensures Tidy(Quote(s), Outside, Outside)
  {
    EscapeIsTidy(s);
    TidyAppend("\"", Escape(s), Outside, Inside, Inside);
    TidyAppend("\"" + Escape(s), "\"", Outside, Inside, Outside);
  }

  lemma PrintIsTidy(v: Scalar)
    requires Printable(v)
    ensures Tidy(Print(v), Outside, Outside)
  {
    if v.SString? {
      QuoteIsTidy(v.s);
    } else {
      UnquotedIsTidy(Print(v));
    }
  }

  lemma EntryIsTidy(e: (string, Scalar))
    requires Printable(e.1)
    ensures Tidy(PrintEntry(e), Outside, Outside)
  {
    QuoteIsTidy(e.0);
    UnquotedIsTidy(":");
    PrintIsTidy(e.1);
    TidyAppend(Quote(e.0), ":", Outside, Outside, Outside);
    TidyAppend(Quote(e.0) + ":", Print(e.1), Outside, Outside, Outside);
  }

  lemma {:induction false} EntriesAreTidy(o: Object)
    requires PrintableObject(o)
    ensures Tidy(PrintEntries(o), Outside, Outside)
  {
    if o != [] {
      EntryIsTidy(o[0]);
      if |o| > 1 {
        EntriesAreTidy(o[1..]);
        UnquotedIsTidy(",");
        TidyAppend(PrintEntry(o[0]), ",", Outside, Outside, Outside);
        TidyAppend(PrintEntry(o[0]) + ",", PrintEntries(o[1..]), Outside, Outside, Outside);
      }
    }
  }

  lemma ObjectIsTidy(o: Object)
    requires PrintableObject(o)
    ensures Tidy(PrintObject(o), Outside, Outside)
  {
    EntriesAreTidy(o);
    UnquotedIsTidy("{");
    UnquotedIsTidy("}");
    TidyAppend("{", PrintEntries(o), Outside, Outside, Outside);
    TidyAppend("{" + PrintEntries(o), "}", Outside, Outside, Outside);
  }

  // ---------- whatever reads as an object ends outside of quotes ----------

  lemma ReadCharScan(s: string)
    requires ReadChar(s).Some?
    ensures Scan(s, Inside) == Scan(ReadChar(s).value.rest, Inside)
  {
    var n := |s| - |ReadChar(s).value.rest|;
    assert s == s[..n] + s[n..];
    ScanAppend(s[..n], s[n..], Inside);
    if s[0] != '\\' {
      PlainInside(s[..1]);
    } else if s[1] == 'u' {
      EscapedPair('u');
      PlainInside(s[2..6]);
      TidyAppend(['\\', 'u'], s[2..6], Inside, Inside, Inside);
      assert s[..6] == ['\\', 'u'] + s[2..6];
    } else {
      EscapedPair(s[1]);
      assert s[..2] == ['\\', s[1]];
    }
  }

  lemma {:induction false} ReadBodyScan(s: string)
    requires ReadBody(s).Some?
    ensures Scan(s, Inside) == Scan(ReadBody(s).value.rest, Outside)
    decreases |s|
  {
    if s[0] != '"' {
      ReadCharScan(s);
      ReadBodyScan(ReadChar(s).value.rest);
    }
  }

  lemma ReadStringScan(s: string)
    requires ReadString(s).Some?
    ensures Scan(s, Outside) == Scan(ReadString(s).value.rest, Outside)
  {
    ReadBodyScan(s[1..]);
  }

  lemma SkipUnquoted(s: string, n: nat)
    requires n <= |s| && Unquoted(s[..n])
    ensures Scan(s, Outside) == Scan(s[n..], Outside)
  {
    assert s == s[..n] + s[n..];
    UnquotedIsTidy(s[..n]);
    ScanAppend(s[..n], s[n..], Outside);
  }

  lemma {:induction false} NumberPrefixChars(s: string)
    ensures forall i :: 0 <= i < NumberPrefix(s) ==> NumberChar(s[i])
  {
    if s != "" && NumberChar(s[0]) {
      NumberPrefixChars(s[1..]);
      assert forall i :: 0 < i < NumberPrefix(s) ==> s[i] == s[1..][i - 1];
    }
  }

  lemma ReadScalarScan(s: string)
    requires ReadScalar(s).Some?
    ensures Scan(s, Outside) == Scan(ReadScalar(s).value.rest, Outside)
  {
    if s[0] == '"' {
      ReadStringScan(s);
    } else if "null" <= s || "true" <= s {
      SkipUnquoted(s, 4);
    } else if "false" <= s {
      SkipUnquoted(s, 5);
    } else {
      NumberPrefixChars(s);
      SkipUnquoted(s, NumberPrefix(s));
    }
  }

  lemma ReadEntryScan(s: string)
    requires ReadEntry(s).Some?
    ensures Scan(s, Outside) == Scan(ReadEntry(s).value.rest, Outside)
  {
    var name := ReadString(s);
    ReadStringScan(s);
    ReadScalarScan(name.value.rest[1..]);
  }

  lemma {:induction false} ReadEntriesScan(s: string)
    requires ReadEntries(s).Some?
    ensures Scan(s, Outside) == Scan(ReadEntries(s).value.rest, Outside)
    decreases |s|
  {
    var e := ReadEntry(s);
    ReadEntryScan(s);
    if e.value.rest[0] == ',' {
      ReadEntriesScan(e.value.rest[1..]);
    }
  }

  lemma ReadObjectScan(s: string)
    requires ReadObject(s).Some?
    ensures Scan(s, Outside) == Outside
  {
    if s == "{}" {
      UnquotedIsTidy(s);
    } else {
      ReadEntriesScan(s[1..]);
    }
  }

  // ---------- the Python reader to the end ----------

  predicate Blank(line: string) {
    forall i :: 0 <= i < |line| ==> PythonSpace(line[i])
  }

  /** The lines that are not blank, each read as one object; `None` when one of them raises. */
  function Records(lines: seq<string>): Option<seq<Object>> {
    if lines == [] then Some([])
    else if Blank(lines[0]) then Records(lines[1..])
    else
      var o := ReadObject(lines[0]);
      if o.None? then None
      else
        var rest := Records(lines[1..]);
        if rest.None? then None else Some([o.value] + rest.value)
  }

  /** `export_jsonl_records`, on the exported text. */
  function ExportJsonlRecords(text: string): Option<seq<Object>> {
    Records(SplitLines(text, PythonBreak))
  }

  lemma ObjectLine(o: Object)
    requires PrintableObject(o)
    ensures var s := PrintObject(o);
      && s != "" && s[0] == '{' && !Blank(s)
      && forall i :: 0 <= i < |s| ==> (PythonBreak(s[i]) <==> Exotic(s[i]))
  {
    EntriesClean(o);
    Joined("{", PrintEntries(o));
    Joined("{" + PrintEntries(o), "}");
    assert NoControl(PrintObject(o)) && !PythonSpace(PrintObject(o)[0]);
  }

  /** The first piece of a broken line ends inside quotes, so it is no JSON text, nor is it blank. */
  lemma FirstPieceRaises(o: Object, rest: string)
    requires PrintableObject(o) && !ClearObject(o)
    ensures ExportJsonlRecords(PrintObject(o) + "\n" + rest) == None
  {
    var line := PrintObject(o);
    var s := line + "\n" + rest;
    var n := FirstBreak(line, PythonBreak);
    ObjectLine(o);
    ObjectBreaks(o);
    assert n < |line|;
    var piece := line[..n];
    ObjectIsTidy(o);
    ExoticPosition(line, Outside, n);
    if ReadObject(piece).Some? {
      ReadObjectScan(piece);
    }
    assert !PythonSpace('{') && piece[0] == '{' && !Blank(piece);
    assert forall i :: 0 <= i < |line| ==> s[i] == line[i];
    assert FirstBreak(s, PythonBreak) == n && s[..n] == piece;
    assert SplitLines(s, PythonBreak)[0] == piece;
  }

  function PrintAll(objects: seq<Object>): (lines: seq<string>)
    ensures |lines| == |objects| && forall i :: 0 <= i < |lines| ==> lines[i] == PrintObject(objects[i])
  {
    seq(|objects|, i requires 0 <= i < |objects| => PrintObject(objects[i]))
  }

  /** A clear line is read, and the reader goes on with the rest. */
  lemma ClearLineReads(o: Object, rest: string)
    requires PrintableObject(o) && ClearObject(o)
    ensures var more := ExportJsonlRecords(rest);
      ExportJsonlRecords(PrintObject(o) + "\n" + rest) == if more.None? then None else Some([o] + more.value)
  {
    ObjectLine(o);
    ObjectBreaks(o);
    ObjectRoundTrip(o);
    SplitFirst(PrintObject(o), rest, PythonBreak);
    assert ([PrintObject(o)] + SplitLines(rest, PythonBreak))[1..] == SplitLines(rest, PythonBreak);
  }

  ghost predicate AllClear(objects: seq<Object>) {
    forall i :: 0 <= i < |objects| ==> ClearObject(objects[i])
  }

  lemma AllClearHead(objects: seq<Object>)
    requires objects != []
    ensures AllClear(objects) <==> ClearObject(objects[0]) && AllClear(objects[1..])
  {
    assert forall i :: 0 < i < |objects| ==> objects[i] == objects[1..][i - 1];
  }

  /** All printed objects come back, in order, if none holds one of the three characters; else the reader raises. */
  lemma {:induction false} RecordsReadBackIff(objects: seq<Object>)
    requires forall i :: 0 <= i < |objects| ==> PrintableObject(objects[i])
    ensures ExportJsonlRecords(Terminated(PrintAll(objects))) == if AllClear(objects) then Some(objects) else None
  {
    if objects != [] {
      var rest := PrintAll(objects[1..]);
      assert PrintAll(objects)[0] == PrintObject(objects[0]) && PrintAll(objects)[1..] == rest;
      AllClearHead(objects);
      if ClearObject(objects[0]) {
        ClearLineReads(objects[0], Terminated(rest));
        RecordsReadBackIff(objects[1..]);
        assert objects == [objects[0]] + objects[1..];
      } else {
        FirstPieceRaises(objects[0], Terminated(rest));
      }
    }
  }

  function RowObjects(ds: DataSet, columns: seq<string>, f: FloatText): (objects: seq<Object>)
    requires AllReach(ds.rows, ds.schema, columns)
    ensures |objects| == |ds.rows|
    ensures forall i :: 0 <= i < |ds.rows| ==> objects[i] == RowObject(ds.rows[i], ds.schema, columns, f)
  {
    seq(|ds.rows|, i requires 0 <= i < |ds.rows| => RowObject(ds.rows[i], ds.schema, columns, f))
  }

  /**
    `export_jsonl_records` returns every row's object, in order, if no selected name or text of any row
    holds U+0085, U+2028 or U+2029; otherwise it raises.
   */
  lemma ExportRecordsIff(ds: DataSet, columns: seq<string>, f: FloatText)
    requires AllReach(ds.rows, ds.schema, columns) && IsFloatText(f)
    ensures ExportJsonlRecords(Terminated(RowLines(ds.rows, ds.schema, columns, f))) ==
      if forall i :: 0 <= i < |ds.rows| ==> ClearRow(ds.rows[i], ds.schema, columns, f)
      then Some(RowObjects(ds, columns, f)) else None
  {
    var objects := RowObjects(ds, columns, f);
    forall i | 0 <= i < |ds.rows|
      ensures PrintableObject(objects[i])
      ensures ClearObject(objects[i]) <==> ClearRow(ds.rows[i], ds.schema, columns, f)
    {
      RowObjectSelects(ds.rows[i], ds.schema, columns, f);
      ClearRowIffClearObject(ds.rows[i], ds.schema, columns, f);
    }
    assert RowLines(ds.rows, ds.schema, columns, f) == PrintAll(objects);
    RecordsReadBackIff(objects);
  }
}
