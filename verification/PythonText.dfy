/** How the Python scripts look at a line of text: white space, and the quoted value of a version line. */
module PythonText {
  import opened DataModel

  /** What Python's `str.strip` strips and its `\s` matches. */
  predicate PythonSpace(c: char) {
    || 9 <= c as int <= 13 || 0x1C <= c as int <= 0x20 || 0x2000 <= c as int <= 0x200A
    || c as int == 0x85 || c as int == 0xA0 || c as int == 0x1680 || c as int == 0x2028 || c as int == 0x2029
    || c as int == 0x202F || c as int == 0x205F || c as int == 0x3000
  }

  function PastSpace(s: string): string {
    if s != "" && PythonSpace(s[0]) then PastSpace(s[1..]) else s
  }

  function UpToQuote(s: string): Option<string> {
    if s == "" then None
    else if s[0] == '"' then Some("")
    else
      var rest := UpToQuote(s[1..]);
      if rest.None? then None else Some([s[0]] + rest.value)
  }

  /** The match of `\s*version\s*=\s*"([^"]*)"` at the start of a line: the quoted text. */
  function QuotedVersion(line: string): Option<string> {
    var s := PastSpace(line);
    if !("version" <= s) then None
    else
      var sign := PastSpace(s[7..]);
      if sign == "" || sign[0] != '=' then None
      else
        var value := PastSpace(sign[1..]);
        if value == "" || value[0] != '"' then None else UpToQuote(value[1..])
  }

  lemma {:induction false} QuoteFound(v: string, rest: string)
    requires '"' !in v
    ensures UpToQuote(v + "\"" + rest) == Some(v)
  {
    if v == "" {
      assert v + "\"" + rest == "\"" + rest;
    } else {
      assert (v + "\"" + rest)[1..] == v[1..] + "\"" + rest;
      QuoteFound(v[1..], rest);
      assert v == [v[0]] + v[1..];
    }
  }

  /** The line that the scripts write reads back as the version written. */
  lemma VersionLineReads(v: string, line: string)
    requires '"' !in v && line == "version = \"" + v + "\"\n"
    ensures QuotedVersion(line) == Some(v)
  {
    var quoted := "\"" + v + "\"\n";
    assert line == "version = " + quoted;
    assert line[7..] == " = " + quoted;
    assert line[7..][1..] == "= " + quoted;
    var value := "= " + quoted;
    assert value[1..] == " " + quoted && value[1..][1..] == quoted;
    assert PastSpace(line) == line && PastSpace(line[7..]) == value && PastSpace(value[1..]) == quoted;
    assert quoted[1..] == v + "\"" + "\n";
    QuoteFound(v, "\n");
  }
}
