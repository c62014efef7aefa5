/**
  `bind_placeholders`: one find-and-replace pass per binding over every string leaf, in whatever
  order the bindings' hash map yields its keys.

  The reference meaning is a single simultaneous substitution over a tokenized template. The main
  results say exactly which bindings make the passes compute it in every order, and show by example
  what goes wrong with braces that belong to no token.
 */
module Placeholders {
  import opened DataModel
  import opened JsonTree

  // ---------- strings ----------

  /** Rust's `str::contains`. */
  predicate Contains(s: string, needle: string) {
    |needle| <= |s| && (needle <= s || (s != "" && Contains(s[1..], needle)))
  }

  /** Rust's `str::replace`: every leftmost, non-overlapping occurrence. */
  function ReplaceAll(s: string, needle: string, replacement: string): string
    requires needle != ""
  {
    if |s| < |needle| then s
    else if needle <= s then replacement + ReplaceAll(s[|needle|..], needle, replacement)
    else [s[0]] + ReplaceAll(s[1..], needle, replacement)
  }

  function Needle(key: string): (n: string)
    ensures n != ""
  {
    "{{" + key + "}}"
  }

  lemma {:induction false} ReplaceWithoutOccurrence(s: string, needle: string, replacement: string)
    requires needle != "" && !Contains(s, needle)
    ensures ReplaceAll(s, needle, replacement) == s
  {
    if |s| < |needle| {
    } else {
      ReplaceWithoutOccurrence(s[1..], needle, replacement);
    }
  }

  /** A stretch of text at which no match begins is copied. */
  lemma {:induction false} ReplaceSkips(u: string, rest: string, needle: string, replacement: string)
    requires needle != ""
    requires forall i :: 0 <= i < |u| ==> !(needle <= u[i..] + rest)
    ensures ReplaceAll(u + rest, needle, replacement) == u + ReplaceAll(rest, needle, replacement)
  {
    if u == "" {
      assert u + rest == rest;
    } else {
      assert u[0..] == u;
      assert (u + rest)[1..] == u[1..] + rest;
      forall i | 0 <= i < |u[1..]| ensures !(needle <= u[1..][i..] + rest) {
        assert u[1..][i..] == u[i + 1..];
      }
      ReplaceSkips(u[1..], rest, needle, replacement);
    }
  }

  /** The pieces of a text with `s` between each two of them. */
  function Joined(pieces: seq<string>, s: string): string
    requires pieces != []
  {
    if |pieces| == 1 then pieces[0] else pieces[0] + s + Joined(pieces[1..], s)
  }

  /** Each needle that joins the pieces is met first where it stands, and after the last piece none is left. */
  ghost predicate CutsAtFirst(pieces: seq<string>, needle: string) {
    && pieces != []
    && (forall i :: 0 <= i < |pieces| - 1 ==> FirstMetAt(pieces[i] + needle, needle, |pieces[i]|))
    && !Contains(pieces[|pieces| - 1], needle)
  }

  ghost predicate FirstMetAt(text: string, needle: string, n: nat)
    requires n <= |text|
  {
    forall k :: 0 <= k < n ==> !(needle <= text[k..])
  }

  lemma LongerPiece(c: char, piece: string, rest: string, needle: string)
    requires FirstMetAt(piece + needle, needle, |piece|) && !(needle <= [c] + piece + needle + rest)
    ensures FirstMetAt([c] + piece + needle, needle, |piece| + 1)
  {
    var text := [c] + piece + needle;
    forall k | 0 <= k < |piece| + 1 ensures !(needle <= text[k..]) {
      if k > 0 {
        assert text[k..] == (piece + needle)[k - 1..];
      } else {
        assert text[k..] == text && text <= text + rest;
      }
    }
  }

  /**
    A pass on any text: it is cut at the needle's leftmost occurrences, one after the other, and its pieces
    are put together again with the replacement.
   */
  lemma {:induction false} ReplaceJoinsPieces(s: string, needle: string, replacement: string)
    returns (pieces: seq<string>)
    requires needle != ""
    ensures CutsAtFirst(pieces, needle) && s == Joined(pieces, needle)
    ensures ReplaceAll(s, needle, replacement) == Joined(pieces, replacement)
    decreases |s|
  {
    if |s| < |needle| {
      pieces := [s];
    } else if needle <= s {
      var rest := ReplaceJoinsPieces(s[|needle|..], needle, replacement);
      pieces := [""] + rest;
      EmptyFirst(rest, needle);
      EmptyFirst(rest, replacement);
      EmptyFirstCuts(rest, needle);
    } else {
      var rest := ReplaceJoinsPieces(s[1..], needle, replacement);
      pieces := [[s[0]] + rest[0]] + rest[1..];
      PrependToFirst(s[0], rest, needle);
      PrependToFirst(s[0], rest, replacement);
      OneMoreCharacter(s, needle, rest);
    }
  }

  lemma EmptyFirst(pieces: seq<string>, s: string)
    requires pieces != []
    ensures Joined([""] + pieces, s) == s + Joined(pieces, s)
  {
    assert ([""] + pieces)[1..] == pieces && "" + s == s;
  }

  lemma EmptyFirstCuts(pieces: seq<string>, needle: string)
    requires CutsAtFirst(pieces, needle)
    ensures CutsAtFirst([""] + pieces, needle)
  {
  }

  lemma OneMoreCharacter(s: string, needle: string, rest: seq<string>)
    requires s != "" && needle != "" && !(needle <= s)
    requires CutsAtFirst(rest, needle) && s[1..] == Joined(rest, needle)
    ensures CutsAtFirst([[s[0]] + rest[0]] + rest[1..], needle)
  {
    var pieces := [[s[0]] + rest[0]] + rest[1..];
    if |rest| > 1 {
      var after := Joined(rest[1..], needle);
      assert s == [s[0]] + s[1..] == [s[0]] + rest[0] + needle + after;
      LongerPiece(s[0], rest[0], after, needle);
      assert pieces[0] + needle == [s[0]] + rest[0] + needle;
    } else {
      assert pieces[0] == s && !Contains(s, needle);
    }
  }

  lemma PrependToFirst(c: char, pieces: seq<string>, s: string)
    requires pieces != []
    ensures Joined([[c] + pieces[0]] + pieces[1..], s) == [c] + Joined(pieces, s)
  {
    var longer := [[c] + pieces[0]] + pieces[1..];
    assert longer[1..] == pieces[1..];
    if |pieces| > 1 {
      var rest := Joined(pieces[1..], s);
      assert ([c] + pieces[0]) + s + rest == [c] + (pieces[0] + s + rest);
    }
  }

  // ---------- templates ----------

  /** A template is plain characters and `{{name}}` tokens. */
  datatype Token = Plain(c: char) | Ref(name: string)

  ghost predicate Bare(name: string) {
    '{' !in name && '}' !in name
  }

  ghost predicate WellFormed(ts: seq<Token>) {
    forall i :: 0 <= i < |ts| ==>
      match ts[i]
      case Plain(c) => c != '{'
      case Ref(name) => Bare(name)
  }

  function RenderToken(t: Token): string {
    match t
    case Plain(c) => [c]
    case Ref(name) => Needle(name)
  }

  function Render(ts: seq<Token>): string {
    if ts == [] then "" else RenderToken(ts[0]) + Render(ts[1..])
  }

  lemma RenderRef(name: string)
    ensures Render([Ref(name)]) == Needle(name)
  {
    assert [Ref(name)][1..] == [];
  }

  function PlainText(s: string): (ts: seq<Token>)
    ensures |ts| == |s| && forall i :: 0 <= i < |s| ==> ts[i] == Plain(s[i])
  {
    seq(|s|, i requires 0 <= i < |s| => Plain(s[i]))
  }

  lemma {:induction false} RenderAppend(a: seq<Token>, b: seq<Token>)
    ensures Render(a + b) == Render(a) + Render(b)
  {
    if a == [] {
      assert a + b == b;
    } else {
      assert (a + b)[1..] == a[1..] + b;
      RenderAppend(a[1..], b);
    }
  }

  lemma {:induction false} RenderPlain(s: string)
    ensures Render(PlainText(s)) == s
  {
    if s != "" {
      assert PlainText(s)[1..] == PlainText(s[1..]);
      RenderPlain(s[1..]);
    }
  }

  /** The number of leading characters of `s` that are not braces. */
  function BarePrefix(s: string): (n: nat)
    ensures n <= |s| && '{' !in s[..n] && '}' !in s[..n]
    ensures n < |s| ==> s[n] == '{' || s[n] == '}'
  {
    if s == "" || s[0] == '{' || s[0] == '}' then 0
    else
      var n := 1 + BarePrefix(s[1..]);
      assert s[..n] == [s[0]] + s[1..][..n - 1];
      n
  }

  /** Reads a string as a template; `None` when an opening brace starts no `{{name}}`. */
  function Tokenize(s: string): Option<seq<Token>>
    decreases |s|
  {
    if s == "" then Some([])
    else if s[0] != '{' then
      var rest := Tokenize(s[1..]);
      if rest.None? then None else Some([Plain(s[0])] + rest.value)
    else if |s| < 2 || s[1] != '{' then None
    else
      var n := BarePrefix(s[2..]);
      if !("}}" <= s[2 + n..]) then None
      else
        var rest := Tokenize(s[4 + n..]);
        if rest.None? then None else Some([Ref(s[2..2 + n])] + rest.value)
  }

  lemma SplitToken(s: string, n: nat)
    requires 4 + n <= |s| && s[0] == s[1] == '{' && "}}" <= s[2 + n..]
    ensures s == Needle(s[2..2 + n]) + s[4 + n..]
  {
    assert s[2 + n] == s[2 + n..][0] == '}';
    assert s[3 + n] == s[2 + n..][1] == '}';
  }

  lemma JoinToken(name: string, rest: string)
    requires Bare(name)
    ensures var s := Needle(name) + rest;
      && s[0] == s[1] == '{' && BarePrefix(s[2..]) == |name| && s[2..2 + |name|] == name
      && "}}" <= s[2 + |name|..] && s[4 + |name|..] == rest
  {
    var s := Needle(name) + rest;
    assert s[2..] == name + ("}}" + rest);
    BarePrefixOf(name, "}}" + rest);
    assert s[2 + |name|..] == "}}" + rest;
  }

  lemma {:induction false} BarePrefixOf(name: string, rest: string)
    requires Bare(name) && rest != "" && rest[0] == '}'
    ensures BarePrefix(name + rest) == |name|
  {
    if name == "" {
      assert name + rest == rest;
    } else {
      assert (name + rest)[1..] == name[1..] + rest;
      BarePrefixOf(name[1..], rest);
    }
  }

  lemma RenderCons(t: Token, ts: seq<Token>)
    ensures Render([t] + ts) == RenderToken(t) + Render(ts)
    ensures WellFormed([t]) && WellFormed(ts) ==> WellFormed([t] + ts)
  {
    assert ([t] + ts)[1..] == ts;
  }

  /** Reading a template loses nothing: rendering undoes tokenizing. */
  lemma {:induction false} RenderTokenize(s: string)
    requires Tokenize(s).Some?
    ensures WellFormed(Tokenize(s).value) && Render(Tokenize(s).value) == s
    decreases |s|
  {
    if s == "" {
    } else if s[0] != '{' {
      RenderTokenize(s[1..]);
      RenderCons(Plain(s[0]), Tokenize(s[1..]).value);
    } else {
      var n := BarePrefix(s[2..]);
      RenderTokenize(s[4 + n..]);
      RenderCons(Ref(s[2..2 + n]), Tokenize(s[4 + n..]).value);
      assert s[2..][..n] == s[2..2 + n];
      SplitToken(s, n);
    }
  }

  lemma TokenizePlain(c: char, rest: string)
    requires c != '{' && Tokenize(rest).Some?
    ensures Tokenize([c] + rest) == Some([Plain(c)] + Tokenize(rest).value)
  {
    assert ([c] + rest)[1..] == rest;
  }

  lemma TokenizeRef(name: string, rest: string)
    requires Bare(name) && Tokenize(rest).Some?
    ensures Tokenize(Needle(name) + rest) == Some([Ref(name)] + Tokenize(rest).value)
  {
    JoinToken(name, rest);
  }

  lemma TokenizeCons(t: Token, rest: string)
    requires WellFormed([t]) && Tokenize(rest).Some?
    ensures Tokenize(RenderToken(t) + rest) == Some([t] + Tokenize(rest).value)
  {
    assert [t][0] == t;
    match t {
      case Plain(c) => TokenizePlain(c, rest);
      case Ref(name) => TokenizeRef(name, rest);
    }
  }

  /** Templates are unambiguous: tokenizing undoes rendering. */
  lemma {:induction false} TokenizeRender(ts: seq<Token>)
    requires WellFormed(ts)
    ensures Tokenize(Render(ts)) == Some(ts)
  {
    if ts != [] {
      TokenizeRender(ts[1..]);
      TokenizeCons(ts[0], Render(ts[1..]));
      assert ts == [ts[0]] + ts[1..];
    }
  }

  // ---------- one pass ----------

  /** Every token of the given name replaced by the tokens `r`. */
  function SubstituteOne(ts: seq<Token>, key: string, r: seq<Token>): seq<Token> {
    if ts == [] then []
    else (if ts[0] == Ref(key) then r else [ts[0]]) + SubstituteOne(ts[1..], key, r)
  }

  lemma {:induction false} SubstituteOneWellFormed(ts: seq<Token>, key: string, r: seq<Token>)
    requires WellFormed(ts) && WellFormed(r)
    ensures WellFormed(SubstituteOne(ts, key, r))
  {
    if ts != [] {
      SubstituteOneWellFormed(ts[1..], key, r);
    }
  }

  lemma Mismatch(needle: string, text: string, j: nat)
    requires j < |needle| && j < |text| && needle[j] != text[j]
    ensures !(needle <= text)
  {
  }

  /** Inside the text of a token, only that token's own needle can begin to match. */
  lemma NoStrayMatch(name: string, key: string, rest: string)
    requires Bare(name) && '}' !in key && name != key
    ensures forall i :: 0 <= i < |Needle(name)| ==> !(Needle(key) <= Needle(name)[i..] + rest)
  {
    var u := Needle(name);
    forall i | 0 <= i < |u| ensures !(Needle(key) <= u[i..] + rest) {
      var text := u[i..] + rest;
      if i == 0 {
        if |name| < |key| {
          Mismatch(Needle(key), text, 2 + |name|);
        } else if |key| < |name| {
          Mismatch(Needle(key), text, 2 + |key|);
        } else {
          var d :| 0 <= d < |key| && key[d] != name[d];
          Mismatch(Needle(key), text, 2 + d);
        }
      } else if i == 1 {
        Mismatch(Needle(key), text, 1);
      } else {
        Mismatch(Needle(key), text, 0);
      }
    }
  }

  /** One find-and-replace pass over a rendered template substitutes exactly the named token. */
  lemma {:induction false} ReplaceIsSubstitution(ts: seq<Token>, key: string, r: seq<Token>)
    requires WellFormed(ts) && '}' !in key
    ensures ReplaceAll(Render(ts), Needle(key), Render(r)) == Render(SubstituteOne(ts, key, r))
  {
    if ts != [] {
      var rest := Render(ts[1..]);
      var tail := SubstituteOne(ts[1..], key, r);
      ReplaceIsSubstitution(ts[1..], key, r);
      match ts[0] {
        case Plain(c) =>
          assert Render(ts) == [c] + rest;
          assert [c][0..] + rest == [c] + rest;
          Mismatch(Needle(key), [c] + rest, 0);
          ReplaceSkips([c], rest, Needle(key), Render(r));
          RenderAppend([ts[0]], tail);
          assert Render([ts[0]]) == [c];
        case Ref(name) =>
          if name == key {
            assert (Needle(key) + rest)[|Needle(key)|..] == rest;
            RenderAppend(r, tail);
          } else {
            NoStrayMatch(name, key, rest);
            ReplaceSkips(Needle(name), rest, Needle(key), Render(r));
            RenderAppend([ts[0]], tail);
            assert Render([ts[0]]) == Needle(name);
          }
      }
    }
  }

  // ---------- all passes, in some order ----------

  /** The passes of the loop over `bindings`, in the given key order. */
  function ApplyInOrder(s: string, order: seq<string>, bindings: map<string, string>): string
    requires forall k :: k in order ==> k in bindings
    decreases |order|
  {
    if order == [] then s
    else ApplyInOrder(ReplaceAll(s, Needle(order[0]), bindings[order[0]]), order[1..], bindings)
  }

  /** A key order a hash map may yield: every key exactly once. */
  ghost predicate IsOrder(order: seq<string>, bindings: map<string, string>) {
    && (forall k :: k in order <==> k in bindings)
    && (forall i, j :: 0 <= i < j < |order| ==> order[i] != order[j])
  }

  /** All tokens named in `live` replaced at once. */
  function Simultaneous(ts: seq<Token>, bindings: map<string, string>, live: set<string>): string
    requires live <= bindings.Keys
  {
    if ts == [] then ""
    else
      (match ts[0]
       case Plain(c) => [c]
       case Ref(name) => if name in live then bindings[name] else Needle(name))
      + Simultaneous(ts[1..], bindings, live)
  }

  /** No key closes a brace, and every replacement is itself a template: its braces all belong to tokens. */
  predicate Readable(bindings: map<string, string>) {
    forall k :: k in bindings ==> '}' !in k && Tokenize(bindings[k]).Some?
  }

  function TokensOf(bindings: map<string, string>, key: string): (r: seq<Token>)
    requires Readable(bindings) && key in bindings
    ensures Tokenize(bindings[key]) == Some(r)
  {
    Tokenize(bindings[key]).value
  }

  /**
    A replacement that can be inserted mentions another bound name only if that name is bound to its
    own token.
   */
  ghost predicate Settled(bindings: map<string, string>)
    requires Readable(bindings)
  {
    forall a, c :: a in bindings && c in bindings && a != c && Bare(a) && Ref(c) in TokensOf(bindings, a) ==>
      bindings[c] == Needle(c)
  }

  lemma {:induction false} SimultaneousAppend(a: seq<Token>, b: seq<Token>, bindings: map<string, string>,
                                              live: set<string>)
    requires live <= bindings.Keys
    ensures Simultaneous(a + b, bindings, live) == Simultaneous(a, bindings, live) + Simultaneous(b, bindings, live)
  {
    if a == [] {
      assert a + b == b;
    } else {
      assert (a + b)[1..] == a[1..] + b;
      SimultaneousAppend(a[1..], b, bindings, live);
    }
  }

  /** Tokens that are not live, or stand for themselves, stay as they are. */
  lemma {:induction false} SimultaneousStill(ts: seq<Token>, bindings: map<string, string>, live: set<string>)
    requires live <= bindings.Keys
    requires forall n :: Ref(n) in ts && n in live ==> bindings[n] == Needle(n)
    ensures Simultaneous(ts, bindings, live) == Render(ts)
  {
    if ts != [] {
      assert ts[0].Ref? ==> Ref(ts[0].name) in ts;
      assert forall t :: t in ts[1..] ==> t in ts;
      SimultaneousStill(ts[1..], bindings, live);
    }
  }

  lemma {:induction false} SimultaneousPeel(ts: seq<Token>, bindings: map<string, string>, live: set<string>,
                                            key: string, r: seq<Token>)
    requires live <= bindings.Keys && key in bindings && key !in live
    requires Ref(key) in ts ==> Simultaneous(r, bindings, live) == bindings[key]
    ensures Simultaneous(SubstituteOne(ts, key, r), bindings, live) == Simultaneous(ts, bindings, live + {key})
  {
    if ts != [] {
      var tail := SubstituteOne(ts[1..], key, r);
      assert forall t :: t in ts[1..] ==> t in ts;
      SimultaneousPeel(ts[1..], bindings, live, key, r);
      if ts[0] == Ref(key) {
        SimultaneousAppend(r, tail, bindings, live);
      } else {
        assert ([ts[0]] + tail)[1..] == tail;
      }
    }
  }

  /** A replacement is the rendering of its tokens, and these make a template. */
  lemma ReplacementTokens(bindings: map<string, string>, key: string)
    requires Readable(bindings) && key in bindings
    ensures WellFormed(TokensOf(bindings, key)) && Render(TokensOf(bindings, key)) == bindings[key]
  {
    RenderTokenize(bindings[key]);
  }

  /** The keys of some passes, each once, at most all of them. */
  ghost predicate SomeKeys(order: seq<string>, bindings: map<string, string>) {
    && (forall k :: k in order ==> k in bindings)
    && (forall i, j :: 0 <= i < j < |order| ==> order[i] != order[j])
  }

  /**
    Whatever the order of the passes, a rendered template comes out as the one simultaneous
    substitution of the keys that were visited.
   */
  lemma {:induction false} PassesAreSimultaneous(ts: seq<Token>, order: seq<string>, bindings: map<string, string>)
    requires WellFormed(ts) && Readable(bindings) && Settled(bindings) && SomeKeys(order, bindings)
    ensures ApplyInOrder(Render(ts), order, bindings) == Simultaneous(ts, bindings, (set k | k in order))
    decreases |order|
  {
    if order == [] {
      SimultaneousStill(ts, bindings, {});
      assert (set k | k in order) == {};
    } else {
      var key := order[0];
      var r := TokensOf(bindings, key);
      var rest := set k | k in order[1..];
      ReplacementTokens(bindings, key);
      ReplaceIsSubstitution(ts, key, r);
      SubstituteOneWellFormed(ts, key, r);
      PassesAreSimultaneous(SubstituteOne(ts, key, r), order[1..], bindings);
      if Ref(key) in ts {
        SimultaneousStill(r, bindings, rest);
      }
      SimultaneousPeel(ts, bindings, rest, key, r);
      assert (set k | k in order) == rest + {key};
    }
  }

  // ---------- bindings on which the order matters ----------

  /** The passes on tokens. */
  function Passes(ts: seq<Token>, order: seq<string>, bindings: map<string, string>): seq<Token>
    requires Readable(bindings) && forall k :: k in order ==> k in bindings
    decreases |order|
  {
    if order == [] then ts
    else Passes(SubstituteOne(ts, order[0], TokensOf(bindings, order[0])), order[1..], bindings)
  }

  lemma {:induction false} PassesRender(ts: seq<Token>, order: seq<string>, bindings: map<string, string>)
    requires WellFormed(ts) && Readable(bindings) && forall k :: k in order ==> k in bindings
    ensures WellFormed(Passes(ts, order, bindings))
    ensures ApplyInOrder(Render(ts), order, bindings) == Render(Passes(ts, order, bindings))
    decreases |order|
  {
    if order != [] {
      var r := TokensOf(bindings, order[0]);
      ReplacementTokens(bindings, order[0]);
      ReplaceIsSubstitution(ts, order[0], r);
      SubstituteOneWellFormed(ts, order[0], r);
      PassesRender(SubstituteOne(ts, order[0], r), order[1..], bindings);
    }
  }

  lemma {:induction false} PassesAppend(ts: seq<Token>, a: seq<string>, b: seq<string>, bindings: map<string, string>)
    requires Readable(bindings) && (forall k :: k in a ==> k in bindings) && forall k :: k in b ==> k in bindings
    ensures Passes(ts, a + b, bindings) == Passes(Passes(ts, a, bindings), b, bindings)
    decreases |a|
  {
    if a == [] {
      assert a + b == b;
    } else {
      assert (a + b)[1..] == a[1..] + b;
      PassesAppend(SubstituteOne(ts, a[0], TokensOf(bindings, a[0])), a[1..], b, bindings);
    }
  }

  lemma {:induction false} SubstituteKeeps(ts: seq<Token>, key: string, r: seq<Token>, t: Token)
    requires t in ts && t != Ref(key)
    ensures t in SubstituteOne(ts, key, r)
  {
    if ts[0] != t {
      SubstituteKeeps(ts[1..], key, r, t);
    }
  }

  lemma {:induction false} PassesKeep(ts: seq<Token>, order: seq<string>, bindings: map<string, string>, name: string)
    requires Readable(bindings) && (forall k :: k in order ==> k in bindings)
    requires Ref(name) in ts && name !in order
    ensures Ref(name) in Passes(ts, order, bindings)
    decreases |order|
  {
    if order != [] {
      SubstituteKeeps(ts, order[0], TokensOf(bindings, order[0]), Ref(name));
      PassesKeep(SubstituteOne(ts, order[0], TokensOf(bindings, order[0])), order[1..], bindings, name);
    }
  }

  lemma {:induction false} SubstituteSize(ts: seq<Token>, key: string, r: seq<Token>)
    ensures var out := SubstituteOne(ts, key, r);
      && (Ref(key) !in ts ==> out == ts)
      && (r == [] ==> |out| <= |ts| && (Ref(key) in ts ==> |out| < |ts|))
      && (|r| > 1 ==> |out| >= |ts| && (Ref(key) in ts ==> |out| > |ts|))
      && (|r| == 1 ==>
            |out| == |ts| && forall i :: 0 <= i < |ts| ==> out[i] == if ts[i] == Ref(key) then r[0] else ts[i])
  {
    if ts != [] {
      SubstituteSize(ts[1..], key, r);
      assert forall t :: t in ts <==> t == ts[0] || t in ts[1..];
    }
  }

  /** A pass that finds its token leaves the tokens as they are only if it puts the same token back. */
  lemma UnchangedOnlyByItself(ts: seq<Token>, key: string, r: seq<Token>)
    requires Ref(key) in ts && SubstituteOne(ts, key, r) == ts
    ensures r == [Ref(key)]
  {
    SubstituteSize(ts, key, r);
    var i :| 0 <= i < |ts| && ts[i] == Ref(key);
    assert |r| == 1 && r[0] == Ref(key);
  }

  lemma Enumerate(s: set<string>) returns (order: seq<string>)
    ensures forall k :: k in order <==> k in s
    ensures forall i, j :: 0 <= i < j < |order| ==> order[i] != order[j]
    decreases |s|
  {
    order := [];
    if s != {} {
      var x :| x in s;
      var rest := Enumerate(s - {x});
      order := [x] + rest;
    }
  }

  lemma SubstituteToken(name: string, key: string, r: seq<Token>)
    ensures SubstituteOne([Ref(name)], key, r) == if name == key then r else [Ref(name)]
  {
    assert [Ref(name)][1..] == [];
  }

  /** If `a` mentions `c`, then after all other passes the token of `c` is still there for a last one. */
  lemma LastPassMatters(bindings: map<string, string>, a: string, c: string, others: seq<string>)
    requires Readable(bindings) && a in bindings && c in bindings && a != c && Bare(a)
    requires Ref(c) in TokensOf(bindings, a) && bindings[c] != Needle(c)
    requires (forall k :: k in others ==> k in bindings) && c !in others
    ensures ApplyInOrder(Needle(a), [a] + others + [c], bindings) != ApplyInOrder(Needle(a), [c, a] + others, bindings)
  {
    var ts := [Ref(a)];
    var r := TokensOf(bindings, c);
    var before := Passes(TokensOf(bindings, a), others, bindings);
    RenderRef(a);
    SubstituteToken(a, a, TokensOf(bindings, a));
    SubstituteToken(a, c, r);
    PassesAppend(ts, [a] + others, [c], bindings);
    assert ([a] + others)[1..] == others && [c][1..] == [];
    assert Passes(ts, [a] + others, bindings) == before;
    assert Passes(ts, [a] + others + [c], bindings) == SubstituteOne(before, c, r);
    assert ([c, a] + others)[1..] == [a] + others;
    assert Passes(ts, [c, a] + others, bindings) == before;
    PassesKeep(TokensOf(bindings, a), others, bindings, c);
    PassesRender(ts, [a] + others + [c], bindings);
    PassesRender(ts, [c, a] + others, bindings);
    TokenizeRender(before);
    TokenizeRender(SubstituteOne(before, c, r));
    ReplacementTokens(bindings, c);
    RenderRef(c);
    if Render(before) == Render(SubstituteOne(before, c, r)) {
      UnchangedOnlyByItself(before, c, r);
    }
  }

  /** No two hash-map orders tell any template apart. */
  ghost predicate OrdersAgree(bindings: map<string, string>) {
    forall ts, one, two :: WellFormed(ts) && IsOrder(one, bindings) && IsOrder(two, bindings) ==>
      ApplyInOrder(Render(ts), one, bindings) == ApplyInOrder(Render(ts), two, bindings)
  }

  lemma FramedOrders(bindings: map<string, string>, a: string, c: string, others: seq<string>)
    requires a in bindings && c in bindings && a != c
    requires forall k :: k in others <==> k in bindings && k != a && k != c
    requires forall i, j :: 0 <= i < j < |others| ==> others[i] != others[j]
    ensures IsOrder([a] + others + [c], bindings) && IsOrder([c, a] + others, bindings)
  {
    forall i | 0 <= i < |others| ensures others[i] != a && others[i] != c {
      assert others[i] in others;
    }
  }

  lemma UnsettledDisagree(bindings: map<string, string>) returns (ts: seq<Token>, one: seq<string>, two: seq<string>)
    requires Readable(bindings) && !Settled(bindings)
    ensures WellFormed(ts) && IsOrder(one, bindings) && IsOrder(two, bindings)
    ensures ApplyInOrder(Render(ts), one, bindings) != ApplyInOrder(Render(ts), two, bindings)
  {
    var a, c :| a in bindings && c in bindings && a != c && Bare(a) && Ref(c) in TokensOf(bindings, a)
             && bindings[c] != Needle(c);
    var others := Enumerate(bindings.Keys - {a, c});
    ts, one, two := [Ref(a)], [a] + others + [c], [c, a] + others;
    RenderRef(a);
    LastPassMatters(bindings, a, c, others);
    FramedOrders(bindings, a, c, others);
    assert ts[0] == Ref(a);
  }

  /**
    Confluence, exactly: among bindings whose braces all belong to tokens, the hash-map order never
    matters to a template if and only if no replacement mentions a bound name other than its own, those
    bound to their own token aside.
   */
  lemma OrdersAgreeIff(bindings: map<string, string>)
    requires Readable(bindings)
    ensures OrdersAgree(bindings) <==> Settled(bindings)
  {
    if Settled(bindings) {
      forall ts, one, two | WellFormed(ts) && IsOrder(one, bindings) && IsOrder(two, bindings)
        ensures ApplyInOrder(Render(ts), one, bindings) == ApplyInOrder(Render(ts), two, bindings)
      {
        PassesAreSimultaneous(ts, one, bindings);
        PassesAreSimultaneous(ts, two, bindings);
        assert (set k | k in one) == (set k | k in two) == bindings.Keys;
      }
    } else {
      var ts, one, two := UnsettledDisagree(bindings);
    }
  }

  lemma {:induction false} TokenizePlainText(s: string)
    requires '{' !in s
    ensures Tokenize(s) == Some(PlainText(s))
    ensures forall n :: Ref(n) !in PlainText(s)
  {
    if s != "" {
      TokenizePlainText(s[1..]);
      assert PlainText(s) == [Plain(s[0])] + PlainText(s[1..]);
    }
  }

  /** The ordinary case: replacements without an opening brace are settled. */
  lemma BracelessIsSettled(bindings: map<string, string>)
    requires forall k :: k in bindings ==> '}' !in k && '{' !in bindings[k]
    ensures Readable(bindings) && Settled(bindings)
  {
    forall k | k in bindings ensures Tokenize(bindings[k]) == Some(PlainText(bindings[k])) {
      TokenizePlainText(bindings[k]);
    }
    forall k, n | k in bindings ensures Ref(n) !in PlainText(bindings[k]) {
      TokenizePlainText(bindings[k]);
    }
  }

  // ---------- why the conditions are there ----------

  lemma TwoPasses(s: string, a: string, b: string, bindings: map<string, string>, mid: string, end: string)
    requires a in bindings && b in bindings
    requires ReplaceAll(s, Needle(a), bindings[a]) == mid
    requires ReplaceAll(mid, Needle(b), bindings[b]) == end
    ensures ApplyInOrder(s, [a, b], bindings) == end
  {
    assert [a, b][1..] == [b] && [b][1..] == [];
    assert ApplyInOrder(s, [a, b], bindings) == ApplyInOrder(mid, [b], bindings);
  }

  lemma TokenAfterBraces(key: string, replacement: string, rest: string)
    requires key != "" && key[0] != '{'
    ensures ReplaceAll("{{" + (Needle(key) + rest), Needle(key), replacement)
         == "{{" + (replacement + ReplaceAll(rest, Needle(key), replacement))
  {
    var text := Needle(key) + rest;
    forall i | 0 <= i < 2 ensures !(Needle(key) <= "{{"[i..] + text) {
      Mismatch(Needle(key), "{{"[i..] + text, 2);
    }
    ReplaceSkips("{{", text, Needle(key), replacement);
    assert text[|Needle(key)|..] == rest;
  }

  lemma InnerTokenReplaced()
    ensures ReplaceAll("{{{{A}}B}}", Needle("A"), "") == Needle("B")
  {
    TokenAfterBraces("A", "", "B}}");
    assert "{{" + (Needle("A") + "B}}") == "{{{{A}}B}}";
    assert ReplaceAll("B}}", Needle("A"), "") == "B}}";
    assert "{{" + ("" + "B}}") == Needle("B");
  }

  lemma OuterTokenMissed()
    ensures ReplaceAll("{{{{A}}B}}", Needle("B"), "x") == "{{{{A}}B}}"
  {
    var u := "{{{{A}}";
    forall i | 0 <= i < 7 ensures !("{{B}}" <= u[i..] + "B}}") {
      Mismatch("{{B}}", u[i..] + "B}}", if i < 3 then 2 else if i == 3 then 1 else 0);
    }
    assert Needle("B") == "{{B}}";
    ReplaceSkips(u, "B}}", "{{B}}", "x");
    assert u + "B}}" == "{{{{A}}B}}";
  }

  lemma WholeTokenReplaced(key: string, replacement: string)
    ensures ReplaceAll(Needle(key), Needle(key), replacement) == replacement
  {
    assert Needle(key)[|Needle(key)|..] == "";
    assert ReplaceAll("", Needle(key), replacement) == "";
  }

  /** A literal brace in the template: the two orders disagree. */
  lemma LiteralBraceBreaksConfluence(bindings: map<string, string>)
    requires "A" in bindings && bindings["A"] == "" && "B" in bindings && bindings["B"] == "x"
    ensures ApplyInOrder("{{{{A}}B}}", ["A", "B"], bindings) == "x"
    ensures ApplyInOrder("{{{{A}}B}}", ["B", "A"], bindings) == Needle("B")
  {
    InnerTokenReplaced();
    WholeTokenReplaced("B", "x");
    OuterTokenMissed();
    TwoPasses("{{{{A}}B}}", "A", "B", bindings, Needle("B"), "x");
    TwoPasses("{{{{A}}B}}", "B", "A", bindings, "{{{{A}}B}}", Needle("B"));
  }

  /** A replacement that opens a brace: the order decides whether it is expanded again. */
  lemma ReplacementBraceBreaksConfluence(bindings: map<string, string>)
    requires "A" in bindings && bindings["A"] == "{{B}}" && "B" in bindings && bindings["B"] == "x"
    ensures ApplyInOrder("{{A}}", ["A", "B"], bindings) == "x"
    ensures ApplyInOrder("{{A}}", ["B", "A"], bindings) == "{{B}}"
  {
    assert Needle("A") == "{{A}}" && Needle("B") == "{{B}}";
    TwoPasses("{{A}}", "A", "B", bindings, "{{B}}", "x");
    ReplaceIsSubstitution([Ref("A")], "B", PlainText("x"));
    SubstituteToken("A", "B", PlainText("x"));
    RenderPlain("x");
    RenderRef("A");
    TwoPasses("{{A}}", "B", "A", bindings, "{{A}}", "{{B}}");
  }

  lemma TwoTokensAndText(name: string, text: string)
    ensures Render([Ref(name), Ref(name)] + PlainText(text)) == Needle(name) + Needle(name) + text
  {
    var two := [Ref(name), Ref(name)];
    RenderRef(name);
    RenderAppend([Ref(name)], [Ref(name)]);
    assert two == [Ref(name)] + [Ref(name)];
    RenderAppend(two, PlainText(text));
    RenderPlain(text);
  }

  lemma BothTokensReplaced(name: string, c: char, text: string)
    ensures SubstituteOne([Ref(name), Ref(name)] + PlainText(text), name, PlainText([c])) == PlainText([c, c] + text)
  {
    var ts := [Ref(name), Ref(name)] + PlainText(text);
    var out, goal := SubstituteOne(ts, name, PlainText([c])), PlainText([c, c] + text);
    SubstituteSize(ts, name, PlainText([c]));
    assert |out| == |goal|;
    forall i | 0 <= i < |out| ensures out[i] == goal[i] {
      assert ts[i] == if i < 2 then Ref(name) else Plain(text[i - 2]);
    }
  }

  /** A replacement with a brace of its own: two of them can open a token. */
  lemma StrayBraceBreaksConfluence(bindings: map<string, string>)
    requires "A" in bindings && bindings["A"] == "{" && "B" in bindings && bindings["B"] == "x"
    ensures var text := Needle("A") + Needle("A") + "B}}";
      && ApplyInOrder(text, ["A", "B"], bindings) == "x"
      && ApplyInOrder(text, ["B", "A"], bindings) == Needle("B")
  {
    var ts := [Ref("A"), Ref("A")] + PlainText("B}}");
    TwoTokensAndText("A", "B}}");
    BothTokensReplaced("A", '{', "B}}");
    assert ['{', '{'] + "B}}" == Needle("B");
    RenderPlain(Needle("B"));
    RenderPlain("{");
    RenderPlain("x");
    ReplaceIsSubstitution(ts, "A", PlainText("{"));
    ReplaceIsSubstitution(ts, "B", PlainText("x"));
    SubstituteSize(ts, "B", PlainText("x"));
    WholeTokenReplaced("B", "x");
    TwoPasses(Render(ts), "A", "B", bindings, Needle("B"), "x");
    TwoPasses(Render(ts), "B", "A", bindings, Render(ts), Needle("B"));
  }

  /** A key that closes a brace: it can swallow text after a token. */
  lemma KeyBraceBreaksConfluence(bindings: map<string, string>)
    requires "A" in bindings && bindings["A"] == "x" && "A}" in bindings && bindings["A}"] == "y"
    ensures ApplyInOrder("{{A}}}", ["A", "A}"], bindings) == "x}"
    ensures ApplyInOrder("{{A}}}", ["A}", "A"], bindings) == "y"
  {
    assert Needle("A") == "{{A}}" && Needle("A}") == "{{A}}}";
    TwoPasses("{{A}}}", "A", "A}", bindings, "x}", "x}");
    TwoPasses("{{A}}}", "A}", "A", bindings, "y", "y");
  }

  // ---------- what is left after binding ----------

  function SubstituteAll(ts: seq<Token>, bindings: map<string, string>): seq<Token>
    requires Readable(bindings)
  {
    if ts == [] then []
    else
      (if ts[0].Ref? && ts[0].name in bindings then TokensOf(bindings, ts[0].name) else [ts[0]])
      + SubstituteAll(ts[1..], bindings)
  }

  function References(ts: seq<Token>): seq<string> {
    if ts == [] then []
    else (if ts[0].Ref? then [ts[0].name] else []) + References(ts[1..])
  }

  /** The names in `names` that no binding covers, in order. */
  function Unbound(names: seq<string>, bindings: map<string, string>): seq<string> {
    if names == [] then []
    else (if names[0] in bindings then [] else [names[0]]) + Unbound(names[1..], bindings)
  }

  lemma {:induction false} ReferencesAppend(a: seq<Token>, b: seq<Token>)
    ensures References(a + b) == References(a) + References(b)
  {
    if a == [] {
      assert a + b == b;
    } else {
      assert (a + b)[1..] == a[1..] + b;
      ReferencesAppend(a[1..], b);
    }
  }

  lemma {:induction false} ReferencesAre(ts: seq<Token>, n: string)
    ensures n in References(ts) <==> Ref(n) in ts
  {
    if ts != [] {
      ReferencesAre(ts[1..], n);
      assert Ref(n) in ts <==> ts[0] == Ref(n) || Ref(n) in ts[1..];
    }
  }

  /** The names left by `names`: those of the replacement for a bound one, itself for an unbound one. */
  function Remaining(names: seq<string>, bindings: map<string, string>): seq<string>
    requires Readable(bindings)
  {
    if names == [] then []
    else
      (if names[0] in bindings then References(TokensOf(bindings, names[0])) else [names[0]])
      + Remaining(names[1..], bindings)
  }

  /**
    The substituted string is again a template; its tokens are the unbound ones of the original and
    those that the inserted replacements bring along, in order.
   */
  lemma {:induction false} TokensThatRemain(ts: seq<Token>, bindings: map<string, string>)
    requires WellFormed(ts) && Readable(bindings)
    ensures WellFormed(SubstituteAll(ts, bindings))
    ensures Render(SubstituteAll(ts, bindings)) == Simultaneous(ts, bindings, bindings.Keys)
    ensures References(SubstituteAll(ts, bindings)) == Remaining(References(ts), bindings)
  {
    if ts != [] {
      var tail := SubstituteAll(ts[1..], bindings);
      TokensThatRemain(ts[1..], bindings);
      if ts[0].Ref? {
        assert ([ts[0].name] + References(ts[1..]))[1..] == References(ts[1..]);
      }
      if ts[0].Ref? && ts[0].name in bindings {
        ReplacementTokens(bindings, ts[0].name);
        RenderAppend(TokensOf(bindings, ts[0].name), tail);
        ReferencesAppend(TokensOf(bindings, ts[0].name), tail);
      } else {
        ReferencesAppend([ts[0]], tail);
        assert References([ts[0]]) == if ts[0].Ref? then [ts[0].name] else [];
        if !ts[0].Ref? {
          assert References(ts) == References(ts[1..]);
        }
      }
    }
  }

  lemma {:induction false} UnboundAreRemaining(names: seq<string>, bindings: map<string, string>)
    requires Readable(bindings)
    ensures |Remaining(names, bindings)| >= |Unbound(names, bindings)|
    ensures Remaining(names, bindings) == Unbound(names, bindings) <==>
      forall n :: n in names && n in bindings ==> References(TokensOf(bindings, n)) == []
  {
    if names != [] {
      UnboundAreRemaining(names[1..], bindings);
      assert forall n :: n in names <==> n == names[0] || n in names[1..];
      var rest, left := Remaining(names[1..], bindings), Unbound(names[1..], bindings);
      if names[0] in bindings {
        assert [] + rest == rest && [] + left == left;
      } else {
        assert ([names[0]] + rest)[1..] == rest && ([names[0]] + left)[1..] == left;
      }
    }
  }

  /**
    Exactly the unbound tokens of the original remain, in their order, if and only if no replacement
    that was inserted has a token of its own.
   */
  lemma ExactlyUnboundTokensRemain(ts: seq<Token>, bindings: map<string, string>)
    requires WellFormed(ts) && Readable(bindings)
    ensures References(SubstituteAll(ts, bindings)) == Unbound(References(ts), bindings) <==>
      forall n :: Ref(n) in ts && n in bindings ==> References(TokensOf(bindings, n)) == []
  {
    TokensThatRemain(ts, bindings);
    UnboundAreRemaining(References(ts), bindings);
    forall n ensures n in References(ts) <==> Ref(n) in ts {
      ReferencesAre(ts, n);
    }
  }

  // ---------- document trees ----------

  /** Every string leaf replaced by the passes in the given order. */
  function Bind(v: Json, order: seq<string>, bindings: map<string, string>): Json
    requires forall k :: k in order ==> k in bindings
  {
    match v
    case JString(s) => JString(ApplyInOrder(s, order, bindings))
    case JArray(xs) => JArray(seq(|xs|, i requires 0 <= i < |xs| => Bind(xs[i], order, bindings)))
    case JObject(m) => JObject(map k | k in m :: k := Bind(m[k], order, bindings))
    case _ => v
  }

  ghost predicate IsTemplate(v: Json) {
    match v
    case JString(s) => Tokenize(s).Some?
    case JArray(xs) => forall i :: 0 <= i < |xs| ==> IsTemplate(xs[i])
    case JObject(m) => forall k :: k in m ==> IsTemplate(m[k])
    case _ => true
  }

  /** The reference meaning: each template leaf substituted once, simultaneously. */
  function BindAtOnce(v: Json, bindings: map<string, string>): Json {
    match v
    case JString(s) =>
      var ts := Tokenize(s);
      if ts.Some? then JString(Simultaneous(ts.value, bindings, bindings.Keys)) else v
    case JArray(xs) => JArray(seq(|xs|, i requires 0 <= i < |xs| => BindAtOnce(xs[i], bindings)))
    case JObject(m) => JObject(map k | k in m :: k := BindAtOnce(m[k], bindings))
    case _ => v
  }

  /** Some template leaf still has a token bound by `bindings`. */
  ghost predicate MentionsToken(v: Json, bindings: map<string, string>) {
    match v
    case JString(s) => Tokenize(s).Some? && exists n :: n in References(Tokenize(s).value) && n in bindings
    case JArray(xs) => exists i :: 0 <= i < |xs| && MentionsToken(xs[i], bindings)
    case JObject(m) => exists k :: k in m && MentionsToken(m[k], bindings)
    case _ => false
  }

  lemma {:induction false} BindSameShape(v: Json, order: seq<string>, bindings: map<string, string>)
    requires forall k :: k in order ==> k in bindings
    ensures SameShape(v, Bind(v, order, bindings))
  {
    match v {
      case JArray(xs) =>
        var ys := Bind(v, order, bindings).items;
        forall i | 0 <= i < |xs| ensures SameShape(xs[i], ys[i]) {
          BindSameShape(xs[i], order, bindings);
        }
      case JObject(m) =>
        var n := Bind(v, order, bindings).fields;
        forall k | k in m ensures SameShape(m[k], n[k]) {
          BindSameShape(m[k], order, bindings);
        }
      case _ =>
    }
  }

  /** For every document of templates and every hash-map order, binding is the simultaneous substitution. */
  lemma {:induction false} BindIsSimultaneous(v: Json, order: seq<string>, bindings: map<string, string>)
    requires IsTemplate(v) && Readable(bindings) && Settled(bindings) && IsOrder(order, bindings)
    ensures Bind(v, order, bindings) == BindAtOnce(v, bindings)
  {
    match v {
      case JString(s) =>
        RenderTokenize(s);
        PassesAreSimultaneous(Tokenize(s).value, order, bindings);
        assert (set k | k in order) == bindings.Keys;
      case JArray(xs) =>
        forall i | 0 <= i < |xs| ensures Bind(xs[i], order, bindings) == BindAtOnce(xs[i], bindings) {
          BindIsSimultaneous(xs[i], order, bindings);
        }
        assert Bind(v, order, bindings).items == BindAtOnce(v, bindings).items;
      case JObject(m) =>
        forall k | k in m ensures Bind(m[k], order, bindings) == BindAtOnce(m[k], bindings) {
          BindIsSimultaneous(m[k], order, bindings);
        }
        assert Bind(v, order, bindings).fields == BindAtOnce(v, bindings).fields;
      case _ =>
    }
  }

  /** No two hash-map orders bind any document of templates differently. */
  ghost predicate DocumentsAgree(bindings: map<string, string>) {
    forall v, one, two :: IsTemplate(v) && IsOrder(one, bindings) && IsOrder(two, bindings) ==>
      Bind(v, one, bindings) == Bind(v, two, bindings)
  }

  /** On whole documents too, settled bindings are exactly those whose order never matters. */
  lemma DocumentsAgreeIff(bindings: map<string, string>)
    requires Readable(bindings)
    ensures DocumentsAgree(bindings) <==> Settled(bindings)
  {
    if Settled(bindings) {
      forall v, one, two | IsTemplate(v) && IsOrder(one, bindings) && IsOrder(two, bindings)
        ensures Bind(v, one, bindings) == Bind(v, two, bindings)
      {
        BindIsSimultaneous(v, one, bindings);
        BindIsSimultaneous(v, two, bindings);
      }
    } else {
      var ts, one, two := UnsettledDisagree(bindings);
      var v := JString(Render(ts));
      TokenizeRender(ts);
      assert IsTemplate(v) && Bind(v, one, bindings) != Bind(v, two, bindings);
    }
  }

  /** A replacement that brings along a token of a bound name, its own included. */
  ghost predicate Echo(bindings: map<string, string>, n: string)
    requires Readable(bindings)
  {
    n in bindings && exists c :: c in References(TokensOf(bindings, n)) && c in bindings
  }

  /** Some template leaf has the token of an echoing replacement. */
  ghost predicate MentionsEcho(v: Json, bindings: map<string, string>)
    requires Readable(bindings)
  {
    match v
    case JString(s) => Tokenize(s).Some? && exists n :: n in References(Tokenize(s).value) && Echo(bindings, n)
    case JArray(xs) => exists i :: 0 <= i < |xs| && MentionsEcho(xs[i], bindings)
    case JObject(m) => exists k :: k in m && MentionsEcho(m[k], bindings)
    case _ => false
  }

  lemma {:induction false} BoundAmongRemaining(names: seq<string>, bindings: map<string, string>)
    requires Readable(bindings)
    ensures (exists c :: c in Remaining(names, bindings) && c in bindings) <==>
      exists n :: n in names && Echo(bindings, n)
  {
    if names != [] {
      BoundAmongRemaining(names[1..], bindings);
      var first := if names[0] in bindings then References(TokensOf(bindings, names[0])) else [names[0]];
      assert forall c :: c in Remaining(names, bindings) <==> c in first || c in Remaining(names[1..], bindings);
      assert forall n :: n in names <==> n == names[0] || n in names[1..];
      assert Echo(bindings, names[0]) <==> exists c :: c in first && c in bindings;
    }
  }

  lemma LeafBoundTokens(s: string, bindings: map<string, string>)
    requires Tokenize(s).Some? && Readable(bindings)
    ensures var out := BindAtOnce(JString(s), bindings);
      IsTemplate(out) && (MentionsToken(out, bindings) <==> MentionsEcho(JString(s), bindings))
  {
    RenderTokenize(s);
    var ts := Tokenize(s).value;
    TokensThatRemain(ts, bindings);
    TokenizeRender(SubstituteAll(ts, bindings));
    BoundAmongRemaining(References(ts), bindings);
  }

  /**
    A bound document is again a document of templates, and a token of a binding is left in it exactly
    when the document mentions a name whose replacement brings one along.
   */
  lemma {:induction false} BoundTokenLeftIff(v: Json, bindings: map<string, string>)
    requires IsTemplate(v) && Readable(bindings)
    ensures IsTemplate(BindAtOnce(v, bindings))
    ensures MentionsToken(BindAtOnce(v, bindings), bindings) <==> MentionsEcho(v, bindings)
  {
    match v {
      case JString(s) => LeafBoundTokens(s, bindings);
      case JArray(xs) =>
        var ys := BindAtOnce(v, bindings).items;
        forall i | 0 <= i < |xs|
          ensures IsTemplate(ys[i]) && (MentionsToken(ys[i], bindings) <==> MentionsEcho(xs[i], bindings))
        {
          BoundTokenLeftIff(xs[i], bindings);
        }
      case JObject(m) =>
        var n := BindAtOnce(v, bindings).fields;
        forall k | k in m
          ensures k in n && IsTemplate(n[k]) && (MentionsToken(n[k], bindings) <==> MentionsEcho(m[k], bindings))
        {
          BoundTokenLeftIff(m[k], bindings);
        }
      case _ =>
    }
  }

  lemma {:induction false} NoEchoNoMention(v: Json, bindings: map<string, string>)
    requires Readable(bindings) && forall n :: !Echo(bindings, n)
    ensures !MentionsEcho(v, bindings)
  {
    match v {
      case JArray(xs) =>
        forall i | 0 <= i < |xs| ensures !MentionsEcho(xs[i], bindings) {
          NoEchoNoMention(xs[i], bindings);
        }
      case JObject(m) =>
        forall k | k in m ensures !MentionsEcho(m[k], bindings) {
          NoEchoNoMention(m[k], bindings);
        }
      case _ =>
    }
  }

  /** With replacements that open no brace, no token of a binding is left anywhere. */
  lemma NoBoundTokenLeft(v: Json, bindings: map<string, string>)
    requires IsTemplate(v) && forall k :: k in bindings ==> '}' !in k && '{' !in bindings[k]
    ensures IsTemplate(BindAtOnce(v, bindings))
    ensures !MentionsToken(BindAtOnce(v, bindings), bindings)
  {
    BracelessIsSettled(bindings);
    forall n ensures !Echo(bindings, n) {
      if n in bindings {
        TokenizePlainText(bindings[n]);
        forall c ensures c !in References(TokensOf(bindings, n)) {
          ReferencesAre(TokensOf(bindings, n), c);
        }
      }
    }
    NoEchoNoMention(v, bindings);
    BoundTokenLeftIff(v, bindings);
  }

  /** A document that mentions no bound token is left alone: binding again is idle where no echo was. */
  lemma {:induction false} BindingIsIdle(v: Json, bindings: map<string, string>)
    requires IsTemplate(v) && !MentionsToken(v, bindings)
    ensures BindAtOnce(v, bindings) == v
  {
    match v {
      case JString(s) =>
        RenderTokenize(s);
        forall n ensures n in References(Tokenize(s).value) <==> Ref(n) in Tokenize(s).value {
          ReferencesAre(Tokenize(s).value, n);
        }
        SimultaneousStill(Tokenize(s).value, bindings, bindings.Keys);
      case JArray(xs) =>
        forall i | 0 <= i < |xs| ensures BindAtOnce(xs[i], bindings) == xs[i] {
          BindingIsIdle(xs[i], bindings);
        }
        assert BindAtOnce(v, bindings).items == xs;
      case JObject(m) =>
        forall k | k in m ensures BindAtOnce(m[k], bindings) == m[k] {
          BindingIsIdle(m[k], bindings);
        }
        assert BindAtOnce(v, bindings).fields == m;
      case _ =>
    }
  }

  // ---------- any document ----------

  /** One pass over any text: cut at the key's leftmost tokens and put together again with the replacement. */
  ghost predicate PassMakes(s: string, key: string, replacement: string, out: string) {
    exists pieces ::
      && CutsAtFirst(pieces, "{{" + key + "}}")
      && s == Joined(pieces, "{{" + key + "}}") && out == Joined(pieces, replacement)
  }

  /** One pass for each key, in turn. */
  ghost predicate PassesMake(s: string, order: seq<string>, bindings: map<string, string>, texts: seq<string>)
    requires forall k :: k in order ==> k in bindings
  {
    && |texts| == |order| + 1 && texts[0] == s
    && forall i :: 0 <= i < |order| ==> PassMakes(texts[i], order[i], bindings[order[i]], texts[i + 1])
  }

  /** Every string leaf is rewritten by the passes; everything else stays. */
  ghost predicate BindsTo(v: Json, order: seq<string>, bindings: map<string, string>, out: Json)
    requires forall k :: k in order ==> k in bindings
  {
    match v
    case JString(s) => out.JString? && exists texts :: PassesMake(s, order, bindings, texts) && out.s == texts[|order|]
    case JArray(xs) =>
      out.JArray? && |out.items| == |xs| && forall i :: 0 <= i < |xs| ==> BindsTo(xs[i], order, bindings, out.items[i])
    case JObject(m) =>
      && out.JObject? && out.fields.Keys == m.Keys
      && forall k :: k in m && k in out.fields ==> BindsTo(m[k], order, bindings, out.fields[k])
    case _ => out == v
  }

  lemma {:induction false} PassesOnText(s: string, order: seq<string>, bindings: map<string, string>)
    returns (texts: seq<string>)
    requires forall k :: k in order ==> k in bindings
    ensures PassesMake(s, order, bindings, texts) && texts[|order|] == ApplyInOrder(s, order, bindings)
    decreases |order|
  {
    texts := [s];
    if order != [] {
      var key := order[0];
      var pieces := ReplaceJoinsPieces(s, Needle(key), bindings[key]);
      var next := ReplaceAll(s, Needle(key), bindings[key]);
      assert PassMakes(s, key, bindings[key], next);
      var rest := PassesOnText(next, order[1..], bindings);
      texts := [s] + rest;
      forall i | 0 <= i < |order| ensures PassMakes(texts[i], order[i], bindings[order[i]], texts[i + 1]) {
        if i > 0 {
          assert order[i] == order[1..][i - 1];
        }
      }
    }
  }

  /** What binding does to any document, whatever braces stand in it. */
  lemma {:induction false} BindMakes(v: Json, order: seq<string>, bindings: map<string, string>)
    requires forall k :: k in order ==> k in bindings
    ensures BindsTo(v, order, bindings, Bind(v, order, bindings))
  {
    match v {
      case JString(s) =>
        var texts := PassesOnText(s, order, bindings);
      case JArray(xs) =>
        forall i | 0 <= i < |xs| ensures BindsTo(xs[i], order, bindings, Bind(v, order, bindings).items[i]) {
          BindMakes(xs[i], order, bindings);
        }
      case JObject(m) =>
        forall k | k in m ensures BindsTo(m[k], order, bindings, Bind(v, order, bindings).fields[k]) {
          BindMakes(m[k], order, bindings);
        }
      case _ =>
    }
  }

  // ---------- the in-place rewrite ----------

  /**
    `bind_placeholders`. The `&mut Value` is an exclusive borrow of an owned tree, so it is
    passed in and handed back. `order` is the order in which the hash map yields its keys.
   */
  method BindPlaceholders(value: Json, bindings: map<string, string>, order: seq<string>) returns (out: Json)
    requires IsOrder(order, bindings)
    ensures out == Bind(value, order, bindings)
    decreases value
  {
    out := value;
    match value {
      case JString(text) =>
        var s := text;
        assert order[0..] == order;
        for i := 0 to |order|
          invariant ApplyInOrder(s, order[i..], bindings) == ApplyInOrder(text, order, bindings)
        {
          var needle := Needle(order[i]);
          assert order[i..][1..] == order[i + 1..];
          if Contains(s, needle) {
            s := ReplaceAll(s, needle, bindings[order[i]]);
          } else {
            ReplaceWithoutOccurrence(s, needle, bindings[order[i]]);
          }
        }
        out := JString(s);
      case JArray(xs) =>
        var items := xs;
        for i := 0 to |xs|
          invariant |items| == |xs|
          invariant forall j :: 0 <= j < i ==> items[j] == Bind(xs[j], order, bindings)
          invariant forall j :: i <= j < |xs| ==> items[j] == xs[j]
        {
          var child := BindPlaceholders(xs[i], bindings, order);
          items := items[i := child];
        }
        out := JArray(items);
        assert items == Bind(value, order, bindings).items;
      case JObject(m) =>
        var fields, todo := m, m.Keys;
        while todo != {}
          invariant todo <= m.Keys && fields.Keys == m.Keys
          invariant forall k :: k in m ==>
            fields[k] == if k in todo then m[k] else Bind(m[k], order, bindings)
        {
          var k :| k in todo;
          var child := BindPlaceholders(m[k], bindings, order);
          fields := fields[k := child];
          todo := todo - {k};
        }
        out := JObject(fields);
        assert fields == Bind(value, order, bindings).fields;
      case _ =>
    }
  }
}
