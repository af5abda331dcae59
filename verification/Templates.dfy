/** Placeholder substitution: `{name}` in messages, on the server and in the page's script, and
    `{{name}}` in page templates, with the escaping applied to what is inserted. */
module Templates {
  import opened Options

  // ---- Searching ----

  function Find(s: string, c: char): (i: Option<nat>)
    ensures i.Some? ==> i.value < |s| && s[i.value] == c && c !in s[..i.value]
    ensures i.None? ==> c !in s
  {
    if s == "" then None
    else if s[0] == c then Some(0)
    else
      var rest := Find(s[1..], c);
      if rest.None? then None
      else
        assert s[..rest.value + 1] == [s[0]] + s[1..][..rest.value];
        Some(rest.value + 1)
  }

  /** Two of `c` in a row. */
  predicate PairAt(s: string, c: char, i: int) {
    0 <= i && i + 1 < |s| && s[i] == c && s[i + 1] == c
  }

  function FindPair(s: string, c: char): (i: Option<nat>)
    ensures i.Some? ==> PairAt(s, c, i.value) && forall k :: 0 <= k < i.value ==> !PairAt(s, c, k)
    ensures i.None? ==> forall k :: !PairAt(s, c, k)
  {
    if |s| < 2 then None
    else if s[0] == c && s[1] == c then Some(0)
    else
      var rest := FindPair(s[1..], c);
      assert forall k :: 1 <= k ==> (PairAt(s, c, k) <==> PairAt(s[1..], c, k - 1));
      if rest.None? then None else Some(rest.value + 1)
  }

  lemma FindPairIs(s: string, c: char, i: nat)
    requires PairAt(s, c, i) && forall k :: 0 <= k < i ==> !PairAt(s, c, k)
    ensures FindPair(s, c) == Some(i)
  {
  }

  // ---- Messages on the server ----

  type Values = seq<(string, string)>

  function Lookup(values: Values, name: string): Option<string> {
    if values == [] then None
    else if values[0].0 == name then Some(values[0].1)
    else Lookup(values[1..], name)
  }

  /** The value of the first pair of that name, and none exactly when there is no such pair. */
  lemma {:induction false} LookupIsFirst(values: Values, name: string)
    ensures Lookup(values, name).None? <==> forall i :: 0 <= i < |values| ==> values[i].0 != name
    ensures Lookup(values, name).Some? ==>
      exists i :: 0 <= i < |values| && values[i] == (name, Lookup(values, name).value)
        && forall k :: 0 <= k < i ==> values[k].0 != name
  {
    if values != [] && values[0].0 != name {
      LookupIsFirst(values[1..], name);
      if Lookup(values, name).Some? {
        var i :| 0 <= i < |values[1..]| && values[1..][i] == (name, Lookup(values, name).value)
                 && forall k :: 0 <= k < i ==> values[1..][k].0 != name;
        var next := i + 1;
        assert values[next] == (name, Lookup(values, name).value);
        forall k | 0 <= k < next ensures values[k].0 != name {
          assert k > 0 ==> values[1..][k - 1] == values[k];
        }
      } else {
        forall i | 0 <= i < |values| ensures values[i].0 != name {
          assert i > 0 ==> values[1..][i - 1] == values[i];
        }
      }
    }
  }

  /** The name and value a placeholder just opened stands for, if any. */
  function Substitution(after: string, values: Values): (r: Option<(nat, string)>)
    ensures r.Some? ==> r.value.0 < |after|
  {
    var end := Find(after, '}');
    if end.None? then None
    else
      var value := Lookup(values, after[..end.value]);
      if value.None? then None else Some((end.value, value.value))
  }

  function Format(message: string, values: Values): string
    decreases |message|
  {
    var start := Find(message, '{');
    if start.None? then message
    else
      var after := message[start.value + 1..];
      match Substitution(after, values)
      case Some((end, value)) => message[..start.value] + (value + Format(after[end + 1..], values))
      case None => message[..start.value] + ("{" + Format(after, values))
  }

  /** One turn of the loop: the text before the brace, then the value or the brace itself. */
  lemma FormatStep(rest: string, values: Values)
    requires Find(rest, '{').Some?
    ensures var i := Find(rest, '{').value;
      var plain, after := rest[..i], rest[i + 1..];
      Format(rest, values) == plain +
        match Substitution(after, values)
        case Some((end, value)) => value + Format(after[end + 1..], values)
        case None => "{" + Format(after, values)
  {
    hide Find, Substitution;
  }

  lemma Appended(done: string, plain: string, value: string, next: string)
    ensures done + (plain + (value + next)) == (done + plain + value) + next
  {
  }

  lemma FormatPlain(rest: string, values: Values)
    requires Find(rest, '{').None?
    ensures Format(rest, values) == rest
  {
  }

  method FormatMessage(message: string, values: Values) returns (formatted: string)
    ensures formatted == Format(message, values)
  {
    hide Find, Substitution, Format;
    formatted := "";
    var rest := message;
    var start := Find(rest, '{');
    assert "" + Format(rest, values) == Format(message, values);
    while start.Some?
      invariant start == Find(rest, '{')
      invariant formatted + Format(rest, values) == Format(message, values)
      decreases |rest|
    {
      FormatStep(rest, values);
      var plain := rest[..start.value];
      var after := rest[start.value + 1..];
      var substitution := Substitution(after, values);
      match substitution {
        case Some((end, value)) =>
          Appended(formatted, plain, value, Format(after[end + 1..], values));
          formatted := formatted + plain + value;
          rest := after[end + 1..];
        case None =>
          Appended(formatted, plain, "{", Format(after, values));
          formatted := formatted + plain + "{";
          rest := after;
      }
      start := Find(rest, '{');
    }
    FormatPlain(rest, values);
    formatted := formatted + rest;
  }

  // ---- Messages in the page's script ----

  predicate WordCharacter(c: char) {
    'a' <= c <= 'z' || 'A' <= c <= 'Z' || '0' <= c <= '9' || c == '_'
  }

  predicate Word(name: string) {
    |name| > 0 && forall i :: 0 <= i < |name| ==> WordCharacter(name[i])
  }

  function WordRun(s: string): (n: nat)
    ensures n <= |s| && (forall i :: 0 <= i < n ==> WordCharacter(s[i])) && (n < |s| ==> !WordCharacter(s[n]))
  {
    if s == "" || !WordCharacter(s[0]) then 0 else 1 + WordRun(s[1..])
  }

  /** The length of the match of `\{(\w+)\}` at the start, or zero. */
  function MatchLength(s: string): (n: nat)
    ensures n != 0 ==> 3 <= n <= |s| && s[0] == '{' && s[n - 1] == '}' && Word(s[1..n - 1])
  {
    if s == "" || s[0] != '{' then 0
    else
      var run := WordRun(s[1..]);
      if run > 0 && run + 1 < |s| && s[run + 1] == '}' then run + 2 else 0
  }

  /** `message.replace` with the global expression: leftmost matches, each replaced once. */
  function Replace(message: string, params: string -> Option<string>): string
    decreases |message|
  {
    if message == "" then ""
    else
      var n := MatchLength(message);
      if n == 0 then [message[0]] + Replace(message[1..], params)
      else
        var value := params(message[1..n - 1]);
        (if value.Some? then value.value else message[..n]) + Replace(message[n..], params)
  }

  /** The values given, as the script's own parameters. */
  function OwnParams(values: Values): string -> Option<string> {
    name => Lookup(values, name)
  }

  predicate WordNames(values: Values) {
    forall i :: 0 <= i < |values| ==> Word(values[i].0)
  }

  lemma LookupIsWord(values: Values, name: string)
    requires WordNames(values) && Lookup(values, name).Some?
    ensures Word(name)
  {
  }

  lemma ReplaceOrdinary(c: char, rest: string, params: string -> Option<string>)
    requires c != '{'
    ensures Replace([c] + rest, params) == [c] + Replace(rest, params)
  {
    assert ([c] + rest)[1..] == rest;
    assert MatchLength([c] + rest) == 0;
  }

  lemma {:induction false} NoBraceNoMatch(plain: string, rest: string, params: string -> Option<string>)
    requires '{' !in plain
    ensures Replace(plain + rest, params) == plain + Replace(rest, params)
  {
    hide Replace, MatchLength;
    if plain == "" {
      assert plain + rest == rest;
      assert plain + Replace(rest, params) == Replace(rest, params);
    } else {
      var c, more := plain[0], plain[1..];
      NoBraceNoMatch(more, rest, params);
      assert plain + rest == [c] + (more + rest);
      ReplaceOrdinary(c, more + rest, params);
      assert [c] + (more + Replace(rest, params)) == plain + Replace(rest, params);
    }
  }

  /** A word followed by a closing brace is what the expression matches after an opening one. */
  lemma WordThenBrace(after: string, end: nat)
    requires end < |after| && after[end] == '}' && '}' !in after[..end]
    ensures MatchLength("{" + after) == if Word(after[..end]) then end + 2 else 0
  {
    var s := "{" + after;
    assert s[1..] == after;
    var run := WordRun(after);
    if run < end {
      assert after[run] == after[..end][run];
    }
  }

  lemma NoCloseNoMatch(after: string)
    requires '}' !in after
    ensures MatchLength("{" + after) == 0
  {
    assert ("{" + after)[1..] == after;
  }

  lemma ReplaceUnmatched(after: string, params: string -> Option<string>)
    requires MatchLength("{" + after) == 0
    ensures Replace("{" + after, params) == "{" + Replace(after, params)
  {
    assert ("{" + after)[1..] == after;
  }

  lemma ReplaceMatched(after: string, end: nat, params: string -> Option<string>)
    requires end < |after| && after[end] == '}' && MatchLength("{" + after) == end + 2
    ensures var name := after[..end];
      Replace("{" + after, params)
        == (if params(name).Some? then params(name).value else "{" + name + "}") + Replace(after[end + 1..], params)
  {
    hide MatchLength;
    var s, n := "{" + after, end + 2;
    assert s[1..n - 1] == after[..end] && s[n..] == after[end + 1..] && s[..n] == "{" + after[..end] + "}";
  }

  /** A closing brace ends every match, so what follows it is replaced on its own. */
  lemma {:induction false} ReplaceAfterClose(u: string, rest: string, params: string -> Option<string>)
    requires '}' !in u
    ensures Replace(u + ("}" + rest), params) == Replace(u + "}", params) + Replace(rest, params)
    decreases |u|
  {
    hide Replace, MatchLength;
    var s := u + ("}" + rest);
    if u == "" {
      ReplaceNothing(params);
      ReplaceOrdinary('}', "", params);
      ReplaceOrdinary('}', rest, params);
      assert "}" + "" == "}" && u + "}" == "}" && s == "}" + rest;
    } else {
      var more := u[1..];
      ReplaceAfterClose(more, rest, params);
      assert s == [u[0]] + (more + ("}" + rest)) && u + "}" == [u[0]] + (more + "}");
      if u[0] != '{' {
        ReplaceOrdinary(u[0], more + ("}" + rest), params);
        ReplaceOrdinary(u[0], more + "}", params);
      } else {
        BraceAfterClose(more, rest, params);
      }
    }
  }

  lemma BraceAfterClose(name: string, rest: string, params: string -> Option<string>)
    requires '}' !in name
    requires Replace(name + ("}" + rest), params) == Replace(name + "}", params) + Replace(rest, params)
    ensures Replace("{" + (name + ("}" + rest)), params)
      == Replace("{" + (name + "}"), params) + Replace(rest, params)
  {
    hide Replace, MatchLength;
    var long, short := name + ("}" + rest), name + "}";
    var end := |name|;
    assert long[..end] == name && short[..end] == name && long[end + 1..] == rest && short[end + 1..] == "";
    WordThenBrace(long, end);
    WordThenBrace(short, end);
    if Word(name) {
      ReplaceMatched(long, end, params);
      ReplaceMatched(short, end, params);
      ReplaceNothing(params);
      var value := if params(name).Some? then params(name).value else "{" + name + "}";
      assert value + "" == value;
    } else {
      ReplaceUnmatched(long, params);
      ReplaceUnmatched(short, params);
    }
  }

  /** What the expression makes of one placeholder whose name holds no closing brace: only the piece after
      the last opening brace can be matched, and is replaced if it is a word with a value. */
  function Placeholder(name: string, params: string -> Option<string>): string {
    var open := Find(name, '{');
    if open.Some? then "{" + (name[..open.value] + Placeholder(name[open.value + 1..], params))
    else if Word(name) && params(name).Some? then params(name).value
    else "{" + (name + "}")
  }

  /** Each value given for a name that can stand in a placeholder is what the expression would put there, and
      a word given none is left in place. */
  ghost predicate Agreed(values: Values, params: string -> Option<string>) {
    forall name :: AgreedOn(values, params, name)
  }

  predicate AgreedOn(values: Values, params: string -> Option<string>, name: string) {
    match Lookup(values, name)
    case Some(value) => '}' !in name ==> value == Placeholder(name, params)
    case None => Word(name) && params(name).Some? ==> params(name).value == "{" + name + "}"
  }

  lemma {:induction false} ReplacePlaceholder(name: string, params: string -> Option<string>)
    requires '}' !in name
    ensures Replace("{" + (name + "}"), params) == Placeholder(name, params)
    decreases |name|
  {
    hide Replace, MatchLength, Find;
    var open, after := Find(name, '{'), name + "}";
    assert after[..|name|] == name && after[|name| + 1..] == "";
    WordThenBrace(after, |name|);
    ReplaceNothing(params);
    if open.Some? {
      var plain, inner := name[..open.value], name[open.value + 1..];
      assert name[open.value] == '{' && name == plain + ("{" + inner);
      ReplaceUnmatched(after, params);
      assert after == plain + ("{" + (inner + "}"));
      NoBraceNoMatch(plain, "{" + (inner + "}"), params);
      ReplacePlaceholder(inner, params);
    } else if Word(name) {
      ReplaceMatched(after, |name|, params);
      var value := if params(name).Some? then params(name).value else "{" + name + "}";
      assert value + "" == value && "{" + name + "}" == "{" + (name + "}");
    } else {
      ReplaceUnmatched(after, params);
      NoBraceNoMatch(after, "", params);
      assert after + "" == after;
    }
  }

  /** What the expression does with a message that starts with an opening brace. */
  lemma OpenBrace(after: string, values: Values, params: string -> Option<string>)
    requires Agreed(values, params)
    ensures Replace("{" + after, params) ==
      match Substitution(after, values)
      case Some((end, value)) => value + Replace(after[end + 1..], params)
      case None => "{" + Replace(after, params)
  {
    hide Replace, MatchLength, Find;
    var end := Find(after, '}');
    if end.None? {
      NoCloseNoMatch(after);
      ReplaceUnmatched(after, params);
    } else {
      var name, rest := after[..end.value], after[end.value + 1..];
      assert AgreedOn(values, params, name);
      assert after == name + ("}" + rest);
      WordThenBrace(after, end.value);
      if Lookup(values, name).Some? {
        assert "{" + (name + ("}" + rest)) == ("{" + name) + ("}" + rest);
        assert ("{" + name) + "}" == "{" + (name + "}");
        ReplaceAfterClose("{" + name, rest, params);
        ReplacePlaceholder(name, params);
      } else if Word(name) {
        ReplaceMatched(after, end.value, params);
        UnknownStays(name, rest, params);
        assert after == (name + "}") + rest;
      } else {
        ReplaceUnmatched(after, params);
      }
    }
  }

  lemma UnknownStays(name: string, rest: string, params: string -> Option<string>)
    requires Word(name)
    ensures "{" + Replace((name + "}") + rest, params) == "{" + name + "}" + Replace(rest, params)
  {
    hide Replace;
    NoBraceNoMatch(name + "}", rest, params);
    assert "{" + ((name + "}") + Replace(rest, params)) == "{" + name + "}" + Replace(rest, params);
  }

  lemma {:induction false} AgreedFormatIsReplace(message: string, values: Values, params: string -> Option<string>)
    requires Agreed(values, params)
    ensures Format(message, values) == Replace(message, params)
    decreases |message|
  {
    hide Find, Substitution, Replace, Format, Agreed;
    var start := Find(message, '{');
    if start.None? {
      FormatPlain(message, values);
      NoBraceNoMatch(message, "", params);
      ReplaceNothing(params);
      assert message + "" == message;
    } else {
      FormatStep(message, values);
      var plain, after := message[..start.value], message[start.value + 1..];
      assert message == plain + ("{" + after);
      NoBraceNoMatch(plain, "{" + after, params);
      OpenBrace(after, values, params);
      match Substitution(after, values) {
        case Some((end, value)) => AgreedFormatIsReplace(after[end + 1..], values, params);
        case None => AgreedFormatIsReplace(after, values, params);
      }
    }
  }

  lemma ReplaceNothing(params: string -> Option<string>)
    ensures Replace("", params) == ""
  {
  }

  lemma {:induction false} FindIs(s: string, c: char, i: nat)
    requires i < |s| && s[i] == c && c !in s[..i]
    ensures Find(s, c) == Some(i)
    decreases |s|
  {
    if i > 0 {
      assert s[0] == s[..i][0] && s[1..][..i - 1] == s[..i][1..];
      FindIs(s[1..], c, i - 1);
    }
  }

  /** What the server makes of one placeholder. */
  lemma FormatOne(name: string, values: Values)
    requires '}' !in name
    ensures var message := "{" + (name + "}");
      && (Lookup(values, name).Some? ==> Format(message, values) == Lookup(values, name).value)
      && (Lookup(values, name).None? && '{' !in name ==> Format(message, values) == message)
  {
    hide Format, Find;
    var after := name + "}";
    var message := "{" + after;
    FindIs(message, '{', 0);
    FindIs(after, '}', |name|);
    assert after[..|name|] == name && after[|name| + 1..] == "" && message[1..] == after && message[..0] == "";
    FormatStep(message, values);
    FormatPlain("", values);
    if Lookup(values, name).Some? {
      assert "" + (Lookup(values, name).value + "") == Lookup(values, name).value;
    } else if '{' !in name {
      assert '{' !in after;
      FormatPlain(after, values);
      assert "" + ("{" + after) == message;
    }
  }

  lemma WordIsPlain(name: string, params: string -> Option<string>)
    requires Word(name)
    ensures Placeholder(name, params) == if params(name).Some? then params(name).value else "{" + (name + "}")
    ensures "{" + (name + "}") == "{" + name + "}"
  {
  }

  /** A placeholder on which the two differ. */
  lemma DisagreedOn(values: Values, params: string -> Option<string>, name: string)
    requires !AgreedOn(values, params, name)
    ensures Format("{" + (name + "}"), values) != Replace("{" + (name + "}"), params)
  {
    hide Format, Replace, Find;
    assert Word(name) ==> '}' !in name && '{' !in name;
    FormatOne(name, values);
    ReplacePlaceholder(name, params);
    if Lookup(values, name).None? {
      WordIsPlain(name, params);
    }
  }

  /** Whatever names and values are given and whatever else the script finds, the server's loop and the
      script's expression agree on every message exactly when each value given for a name that can stand in
      a placeholder is what the expression would put there, and no word given no value is replaced by
      something else. */
  lemma TwinsAgreeExactlyWhen(values: Values, params: string -> Option<string>)
    ensures (forall message :: Format(message, values) == Replace(message, params)) <==> Agreed(values, params)
  {
    hide Format, Replace, AgreedOn;
    if Agreed(values, params) {
      forall message ensures Format(message, values) == Replace(message, params) {
        AgreedFormatIsReplace(message, values, params);
      }
    } else {
      var name :| !AgreedOn(values, params, name);
      DisagreedOn(values, params, name);
    }
  }

  /** So with word-character names, and nothing else for the script to find, they agree on every message. */
  lemma FormatIsReplace(values: Values)
    ensures (forall message :: Format(message, values) == Replace(message, OwnParams(values)))
       <==> Agreed(values, OwnParams(values))
    ensures WordNames(values) ==> Agreed(values, OwnParams(values))
  {
    hide Format, Replace, MatchLength;
    var params := OwnParams(values);
    TwinsAgreeExactlyWhen(values, params);
    if WordNames(values) {
      forall name ensures AgreedOn(values, params, name) {
        if Lookup(values, name).Some? {
          LookupIsWord(values, name);
          WordIsPlain(name, params);
        }
      }
    }
  }

  /** `name in params` also finds what a JavaScript object inherits. */
  function ScriptParams(values: Values, inherited: map<string, string>): string -> Option<string> {
    name =>
      var own := Lookup(values, name);
      if own.Some? then own else if name in inherited then Some(inherited[name]) else None
  }

  /** `Object.prototype` supplies such words: without a value for it, `{toString}` stays on the server and
      is replaced in the page. */
  lemma InheritedNameIsSubstituted(inherited: map<string, string>)
    requires "toString" in inherited && inherited["toString"] == "function toString() { [native code] }"
    ensures exists message :: Format(message, []) != Replace(message, ScriptParams([], inherited))
  {
    var name := "toString";
    assert Word(name) && inherited[name][0] != '{';
    assert !AgreedOn([], ScriptParams([], inherited), name);
    TwinsAgreeExactlyWhen([], ScriptParams([], inherited));
  }

  /** A name with a hyphen is substituted on the server and cannot be matched in the page. */
  lemma OtherNameIsSubstituted(inherited: map<string, string>)
    ensures Format("{a-b}", [("a-b", "x")]) == "x"
    ensures Replace("{a-b}", ScriptParams([("a-b", "x")], inherited)) == "{a-b}"
  {
    hide Format, Replace, MatchLength;
    var values, after := [("a-b", "x")], "a-b}";
    var params := ScriptParams(values, inherited);
    FormatOne("a-b", values);
    assert "{" + ("a-b" + "}") == "{a-b}" && "{" + after == "{a-b}";
    assert after[..3] == "a-b" && !WordCharacter("a-b"[1]);
    WordThenBrace(after, 3);
    ReplaceUnmatched(after, params);
    NoBraceNoMatch(after, "", params);
    ReplaceNothing(params);
    assert after + "" == after;
  }

  // ---- Page templates ----

  /** A template read left to right: text, a placeholder, more of the same; or the text that ends it. */
  datatype Template = Tail(text: string) | Hole(text: string, key: string, rest: Template)

  function Source(t: Template): string {
    match t
    case Tail(text) => text
    case Hole(text, key, rest) => text + ("{{" + (key + ("}}" + Source(rest))))
  }

  /** Text and keys end where the template's own braces say they do. */
  predicate WellFormed(t: Template) {
    match t
    case Tail(text) => FindPair(text, '{').None?
    case Hole(text, key, rest) =>
      FindPair(text + "{{", '{') == Some(|text|) && FindPair(key + "}}", '}') == Some(|key|) && WellFormed(rest)
  }

  function Parse(s: string): Option<Template>
    decreases |s|
  {
    var start := FindPair(s, '{');
    if start.None? then Some(Tail(s))
    else
      var after := s[start.value + 2..];
      var end := FindPair(after, '}');
      if end.None? then None
      else
        var rest := Parse(after[end.value + 2..]);
        if rest.None? then None
        else Some(Hole(s[..start.value], after[..end.value], rest.value))
  }

  type Resolver = string -> Option<string>

  /** Each text as it stands, each placeholder's value as it stands; nothing if some key has no value. */
  function Rendered(t: Template, resolve: Resolver): Option<string> {
    match t
    case Tail(text) => Some(text)
    case Hole(text, key, rest) =>
      var page := Rendered(rest, resolve);
      if resolve(key).None? || page.None? then None else Some(text + resolve(key).value + page.value)
  }

  /** Built-in variables first, then the caller's, then the escaped dictionary entry. */
  function Resolve(builtin: Resolver, variables: Resolver, dictionary: map<string, string>): Resolver {
    key =>
      if builtin(key).Some? then builtin(key)
      else if variables(key).Some? then variables(key)
      else if key in dictionary then Some(Escape(dictionary[key]))
      else None
  }

  /** `None` is a panic: a placeholder left open, or a key nothing defines. */
  method RenderPage(template: string, builtin: Resolver, variables: Resolver, dictionary: map<string, string>)
    returns (page: Option<string>)
    ensures page == (var parsed := Parse(template);
      if parsed.None? then None else Rendered(parsed.value, Resolve(builtin, variables, dictionary)))
    ensures page.Some? && FilledFromDictionary(template, builtin, variables) ==>
      MarkupOf(page.value) == MarkupOf(Literals(Parse(template).value))
  {
    PageMarkup(template, builtin, variables, dictionary);
    hide FindPair, Resolve, MarkupOf, FilledFromDictionary;
    var resolve := Resolve(builtin, variables, dictionary);
    var done := "";
    var rest := template;
    var start := FindPair(rest, '{');
    NothingPrefixed(Page(template, resolve));
    while start.Some?
      invariant start == FindPair(rest, '{')
      invariant Prefixed(done, Page(rest, resolve)) == Page(template, resolve)
      decreases |rest|
    {
      var after := rest[start.value + 2..];
      var end := FindPair(after, '}');
      if end.None? {
        return None;
      }
      var key := after[..end.value];
      if resolve(key).None? {
        return None;
      }
      var plain, value, next := rest[..start.value], resolve(key).value, after[end.value + 2..];
      PrefixedTwice(done, plain + value, Page(next, resolve));
      assert done + (plain + value) == done + plain + value;
      done := done + plain + value;
      rest := next;
      start := FindPair(rest, '{');
    }
    page := Some(done + rest);
  }

  /** The text is a template, and nothing built in or supplied stands for any of its keys. */
  ghost predicate FilledFromDictionary(template: string, builtin: Resolver, variables: Resolver) {
    Parse(template).Some?
    && forall key :: key in HoleKeys(Parse(template).value) ==> FromDictionary(builtin, variables, key)
  }

  lemma PageMarkup(template: string, builtin: Resolver, variables: Resolver, dictionary: map<string, string>)
    ensures var page := Page(template, Resolve(builtin, variables, dictionary));
      page.Some? && FilledFromDictionary(template, builtin, variables) ==>
        MarkupOf(page.value) == MarkupOf(Literals(Parse(template).value))
  {
    hide Parse, Resolve, MarkupOf;
    var page := Page(template, Resolve(builtin, variables, dictionary));
    if page.Some? && FilledFromDictionary(template, builtin, variables) {
      OnlyLiteralMarkup(Parse(template).value, builtin, variables, dictionary);
    }
  }

  ghost function Page(template: string, resolve: Resolver): Option<string> {
    var parsed := Parse(template);
    if parsed.None? then None else Rendered(parsed.value, resolve)
  }

  ghost function Prefixed(done: string, page: Option<string>): Option<string> {
    if page.None? then None else Some(done + page.value)
  }

  lemma NothingPrefixed(page: Option<string>)
    ensures Prefixed("", page) == page
  {
    assert page.Some? ==> "" + page.value == page.value;
  }

  lemma PrefixedTwice(a: string, b: string, page: Option<string>)
    ensures Prefixed(a, Prefixed(b, page)) == Prefixed(a + b, page)
  {
    assert page.Some? ==> a + (b + page.value) == (a + b) + page.value;
  }

  lemma SamePairs(a: string, b: string, c: char, n: nat)
    requires n < |a| && n < |b| && a[..n + 1] == b[..n + 1]
    ensures forall k :: 0 <= k < n ==> (PairAt(a, c, k) <==> PairAt(b, c, k))
  {
    forall k | 0 <= k < n ensures PairAt(a, c, k) <==> PairAt(b, c, k) {
      assert a[k] == a[..n + 1][k] && b[k] == b[..n + 1][k];
      assert a[k + 1] == a[..n + 1][k + 1] && b[k + 1] == b[..n + 1][k + 1];
    }
  }

  lemma PairEndsText(text: string, c: char, more: string)
    requires FindPair(text + [c, c], c) == Some(|text|)
    ensures FindPair(text + ([c, c] + more), c) == Some(|text|)
  {
    hide FindPair;
    var short, long := text + [c, c], text + ([c, c] + more);
    assert long[..|short|] == short;
    assert long[|text|] == short[|text|] && long[|text| + 1] == short[|text| + 1];
    assert long[..|text| + 1] == short[..|text| + 1];
    SamePairs(short, long, c, |text|);
    FindPairIs(long, c, |text|);
  }

  lemma PairSplitsText(s: string, c: char)
    requires FindPair(s, c).Some?
    ensures var i := FindPair(s, c).value;
      s == s[..i] + ([c, c] + s[i + 2..]) && FindPair(s[..i] + [c, c], c) == Some(i)
  {
    hide FindPair;
    var i := FindPair(s, c).value;
    var short := s[..i] + [c, c];
    assert s[i..i + 2] == [c, c];
    assert s == s[..i] + s[i..i + 2] + s[i + 2..];
    assert short[..i + 1] == s[..i + 1];
    SamePairs(short, s, c, i);
    FindPairIs(short, c, i);
  }

  lemma ParseHole(s: string, rest: Template)
    requires FindPair(s, '{').Some?
    requires FindPair(s[FindPair(s, '{').value + 2..], '}').Some?
    requires var start := FindPair(s, '{').value;
      var after := s[start + 2..];
      Parse(after[FindPair(after, '}').value + 2..]) == Some(rest)
    ensures var start := FindPair(s, '{').value;
      var after := s[start + 2..];
      Parse(s) == Some(Hole(s[..start], after[..FindPair(after, '}').value], rest))
  {
    hide FindPair;
  }

  lemma ParseSourceHole(text: string, key: string, rest: Template)
    requires WellFormed(Hole(text, key, rest)) && Parse(Source(rest)) == Some(rest)
    ensures Parse(Source(Hole(text, key, rest))) == Some(Hole(text, key, rest))
  {
    hide FindPair, Parse;
    var tail := Source(rest);
    var after := key + ("}}" + tail);
    var s := text + ("{{" + after);
    PairEndsText(text, '{', after);
    PairEndsText(key, '}', tail);
    assert s[..|text|] == text && s[|text| + 2..] == after;
    assert after[..|key|] == key && after[|key| + 2..] == tail;
    ParseHole(s, rest);
  }

  /** Reading back a well-formed template gives that template. */
  lemma {:induction false} ParseSource(t: Template)
    requires WellFormed(t)
    ensures Parse(Source(t)) == Some(t)
  {
    hide FindPair;
    if t.Hole? {
      ParseSource(t.rest);
      ParseSourceHole(t.text, t.key, t.rest);
    }
  }

  lemma SourceParseHole(s: string, rest: Template)
    requires FindPair(s, '{').Some?
    requires FindPair(s[FindPair(s, '{').value + 2..], '}').Some?
    requires var after := s[FindPair(s, '{').value + 2..];
      WellFormed(rest) && Source(rest) == after[FindPair(after, '}').value + 2..]
    ensures var start := FindPair(s, '{').value;
      var after := s[start + 2..];
      var t := Hole(s[..start], after[..FindPair(after, '}').value], rest);
      WellFormed(t) && Source(t) == s
  {
    hide FindPair;
    PairSplitsText(s, '{');
    PairSplitsText(s[FindPair(s, '{').value + 2..], '}');
  }

  /** What is read is well-formed and is the text that was given. */
  lemma {:induction false} SourceParse(s: string)
    requires Parse(s).Some?
    ensures WellFormed(Parse(s).value) && Source(Parse(s).value) == s
    decreases |s|
  {
    hide FindPair, WellFormed, Source;
    var start := FindPair(s, '{');
    if start.Some? {
      var after := s[start.value + 2..];
      var rest := after[FindPair(after, '}').value + 2..];
      SourceParse(rest);
      SourceParseHole(s, Parse(rest).value);
    } else {
      TailIsItsText(s);
    }
  }

  lemma TailIsItsText(s: string)
    requires FindPair(s, '{').None?
    ensures WellFormed(Tail(s)) && Source(Tail(s)) == s
  {
  }

  /** Rendering fails on a text exactly when it is no template (a placeholder is left open) or its template
      has an undefined key; otherwise the page is the template with each value inserted and never read. */
  lemma PageIsTheTemplateFilledIn(s: string, resolve: Resolver)
    ensures (exists t :: WellFormed(t) && Source(t) == s) <==> Parse(s).Some?
    ensures forall t :: WellFormed(t) && Source(t) == s ==> Page(s, resolve) == Rendered(t, resolve)
  {
    forall t | WellFormed(t) && Source(t) == s ensures Parse(s) == Some(t) {
      ParseSource(t);
    }
    if Parse(s).Some? {
      SourceParse(s);
    }
  }

  lemma {:induction false} FailsOnlyOnUndefined(t: Template, resolve: Resolver)
    ensures Rendered(t, resolve).None? <==> exists key :: key in HoleKeys(t) && resolve(key).None?
  {
    if t.Hole? {
      FailsOnlyOnUndefined(t.rest, resolve);
      assert t.key in HoleKeys(t);
      assert forall key :: key in HoleKeys(t) <==> key == t.key || key in HoleKeys(t.rest);
    }
  }

  function HoleKeys(t: Template): set<string> {
    match t
    case Tail(_) => {}
    case Hole(_, key, rest) => {key} + HoleKeys(rest)
  }

  // ---- Escaping ----

  function Entity(c: char): string {
    match c
    case '&' => "&amp;"
    case '<' => "&lt;"
    case '>' => "&gt;"
    case '"' => "&quot;"
    case '\'' => "&#39;"
    case _ => [c]
  }

  function Escape(s: string): string {
    if s == "" then "" else Escape(s[..|s| - 1]) + Entity(s[|s| - 1])
  }

  method EscapeHtml(value: string) returns (escaped: string)
    ensures escaped == Escape(value)
  {
    escaped := "";
    for i := 0 to |value|
      invariant escaped == Escape(value[..i])
    {
      assert value[..i + 1][..i] == value[..i];
      match value[i] {
        case '&' => escaped := escaped + "&amp;";
        case '<' => escaped := escaped + "&lt;";
        case '>' => escaped := escaped + "&gt;";
        case '"' => escaped := escaped + "&quot;";
        case '\'' => escaped := escaped + "&#39;";
        case c => escaped := escaped + [c];
      }
    }
    assert value[..|value|] == value;
  }

  /** What an HTML reader makes of text holding only these five entities. */
  function Decode(s: string): string {
    if s == "" then ""
    else if "&amp;" <= s then "&" + Decode(s[5..])
    else if "&lt;" <= s then "<" + Decode(s[4..])
    else if "&gt;" <= s then ">" + Decode(s[4..])
    else if "&quot;" <= s then "\"" + Decode(s[6..])
    else if "&#39;" <= s then "'" + Decode(s[5..])
    else [s[0]] + Decode(s[1..])
  }

  lemma {:induction false} EscapeFront(s: string)
    requires s != ""
    ensures Escape(s) == Entity(s[0]) + Escape(s[1..])
  {
    hide Entity;
    var n := |s| - 1;
    if n == 0 {
      assert s[..0] == "" && s[1..] == "";
      assert "" + Entity(s[0]) == Entity(s[0]) + "";
    } else {
      EscapeFront(s[..n]);
      var middle, last := s[1..][..n - 1], Entity(s[n]);
      assert s[..n][1..] == middle;
      assert Escape(s[1..]) == Escape(middle) + last;
      assert Entity(s[0]) + Escape(middle) + last == Entity(s[0]) + (Escape(middle) + last);
    }
  }

  lemma DecodeEntity(c: char, rest: string)
    ensures Decode(Entity(c) + rest) == [c] + Decode(rest)
  {
    var e := Entity(c);
    var s := e + rest;
    assert s[|e|..] == rest && s[..|e|] == e;
    match c
    case '&' => assert "&amp;" <= s;
    case '<' => assert "&lt;" <= s && s[1] == 'l';
    case '>' => assert "&gt;" <= s && s[1] == 'g';
    case '"' => assert "&quot;" <= s && s[1] == 'q';
    case '\'' => assert "&#39;" <= s && s[1] == '#';
    case _ => assert s[0] == c && c != '&';
  }

  /** Decoding the entities undoes the escaping. */
  lemma {:induction false} DecodeEscape(s: string)
    ensures Decode(Escape(s)) == s
  {
    if s != "" {
      EscapeFront(s);
      DecodeEntity(s[0], Escape(s[1..]));
      DecodeEscape(s[1..]);
    }
  }

  predicate Markup(c: char) {
    c == '<' || c == '>' || c == '"' || c == '\''
  }

  /** Escaped text holds no character that could open or close markup or an attribute. */
  lemma {:induction false} EscapeHasNoMarkup(s: string)
    ensures forall i :: 0 <= i < |Escape(s)| ==> !Markup(Escape(s)[i])
  {
    if s != "" {
      EscapeHasNoMarkup(s[..|s| - 1]);
      var e := Entity(s[|s| - 1]);
      assert forall i :: 0 <= i < |e| ==> !Markup(e[i]);
    }
  }

  // ---- What a page's placeholders stand for ----

  /** A built-in value wins over the caller's, the caller's over the dictionary. */
  lemma ResolvesInOrder(builtin: Resolver, variables: Resolver, dictionary: map<string, string>, key: string)
    ensures var value := Resolve(builtin, variables, dictionary)(key);
      && (builtin(key).Some? ==> value == builtin(key))
      && (builtin(key).None? && variables(key).Some? ==> value == variables(key))
      && (value.None? <==> builtin(key).None? && variables(key).None? && key !in dictionary)
  {
  }

  predicate FromDictionary(builtin: Resolver, variables: Resolver, key: string) {
    builtin(key).None? && variables(key).None?
  }

  /** A dictionary entry is inserted as text: read as HTML it is the entry again, and it holds no markup. */
  lemma DictionaryIsEscaped(builtin: Resolver, variables: Resolver, dictionary: map<string, string>, key: string)
    requires FromDictionary(builtin, variables, key) && key in dictionary
    ensures var value := Resolve(builtin, variables, dictionary)(key);
      && value.Some? && Decode(value.value) == dictionary[key]
      && forall i :: 0 <= i < |value.value| ==> !Markup(value.value[i])
  {
    DecodeEscape(dictionary[key]);
    EscapeHasNoMarkup(dictionary[key]);
  }

  /** A template's own text. */
  function Literals(t: Template): string {
    match t
    case Tail(text) => text
    case Hole(text, _, rest) => text + Literals(rest)
  }

  function MarkupOf(s: string): string {
    if s == "" then "" else MarkupOf(s[..|s| - 1]) + if Markup(s[|s| - 1]) then [s[|s| - 1]] else ""
  }

  lemma {:induction false} MarkupOfBoth(a: string, b: string)
    ensures MarkupOf(a + b) == MarkupOf(a) + MarkupOf(b)
  {
    if b == "" {
      assert a + b == a;
    } else {
      var n := |b| - 1;
      MarkupOfBoth(a, b[..n]);
      assert (a + b)[..|a + b| - 1] == a + b[..n];
    }
  }

  lemma {:induction false} NoMarkup(s: string)
    requires forall i :: 0 <= i < |s| ==> !Markup(s[i])
    ensures MarkupOf(s) == ""
  {
    if s != "" {
      NoMarkup(s[..|s| - 1]);
    }
  }

  /** When every key stands for a dictionary entry, the markup of the page is the markup of the template's own
      text, character by character: no entry adds any. */
  lemma {:induction false} OnlyLiteralMarkup(t: Template, builtin: Resolver, variables: Resolver,
                                            dictionary: map<string, string>)
    requires forall key :: key in HoleKeys(t) ==> FromDictionary(builtin, variables, key)
    requires Rendered(t, Resolve(builtin, variables, dictionary)).Some?
    ensures MarkupOf(Rendered(t, Resolve(builtin, variables, dictionary)).value) == MarkupOf(Literals(t))
  {
    hide Resolve, MarkupOf;
    if t.Hole? {
      var resolve := Resolve(builtin, variables, dictionary);
      OnlyLiteralMarkup(t.rest, builtin, variables, dictionary);
      assert t.key in HoleKeys(t);
      ResolvesInOrder(builtin, variables, dictionary, t.key);
      DictionaryIsEscaped(builtin, variables, dictionary, t.key);
      var value, rest := resolve(t.key).value, Rendered(t.rest, resolve).value;
      NoMarkup(value);
      MarkupOfBoth(t.text + value, rest);
      MarkupOfBoth(t.text, value);
      MarkupOfBoth(t.text, Literals(t.rest));
    }
  }

  /** Rendering puts each value where its placeholder stood: when every key stands for its own placeholder, the
      page is the template as written. */
  lemma {:induction false} PlaceholdersStandInPlace(t: Template)
    ensures Rendered(t, key => Some("{{" + (key + "}}"))) == Some(Source(t))
  {
    if t.Hole? {
      PlaceholdersStandInPlace(t.rest);
      var rest := Source(t.rest);
      assert t.text + ("{{" + (t.key + "}}")) + rest == t.text + ("{{" + (t.key + ("}}" + rest)));
    }
  }

  // ---- The inlined dictionary ----

  /** `replace("</", "<\\/")`. */
  function InlineSafe(json: string): string {
    if json == "" then ""
    else if "</" <= json then "<\\/" + InlineSafe(json[2..])
    else [json[0]] + InlineSafe(json[1..])
  }

  predicate ClosesAt(s: string, i: int) {
    0 <= i && i + 1 < |s| && s[i] == '<' && s[i + 1] == '/'
  }

  lemma {:induction false} InlineSafeFront(json: string)
    ensures InlineSafe(json) == "" <==> json == ""
    ensures json != "" ==> InlineSafe(json)[0] == json[0]
  {
  }

  /** Nothing inlined can close the surrounding element. */
  lemma {:induction false} NothingCloses(json: string)
    ensures forall i :: !ClosesAt(InlineSafe(json), i)
  {
    if json != "" {
      var skip := if "</" <= json then 2 else 1;
      var head := if "</" <= json then "<\\/" else [json[0]];
      var rest := InlineSafe(json[skip..]);
      NothingCloses(json[skip..]);
      InlineSafeFront(json[skip..]);
      forall i ensures !ClosesAt(head + rest, i) {
        assert i >= |head| ==> !ClosesAt(rest, i - |head|);
      }
    }
  }

  /** What a JSON reader makes of escapes: `\/` is a slash, any other escape is kept as it is. */
  function ReadEscapes(json: string): string {
    if json == "" then ""
    else if |json| >= 2 && json[0] == '\\' then
      (if json[1] == '/' then "/" else json[..2]) + ReadEscapes(json[2..])
    else [json[0]] + ReadEscapes(json[1..])
  }

  /** No escape stands for `<`, as in all JSON. */
  predicate ValidEscapes(json: string) {
    if json == "" then true
    else if |json| >= 2 && json[0] == '\\' then json[1] != '<' && ValidEscapes(json[2..])
    else ValidEscapes(json[1..])
  }

  /** The page reads back the dictionary it was given. */
  lemma {:induction false} InlineSafeKeepsMeaning(json: string)
    requires ValidEscapes(json)
    ensures ReadEscapes(InlineSafe(json)) == ReadEscapes(json)
    decreases |json|
  {
    if json != "" {
      if "</" <= json {
        var rest := json[2..];
        assert json[1..][0] == '/' && json[1..][1..] == rest;
        InlineSafeKeepsMeaning(rest);
        var safe := InlineSafe(rest);
        var all := "<\\/" + safe;
        assert all[1..] == "\\/" + safe && ("\\/" + safe)[2..] == safe;
        assert ReadEscapes(all) == "<" + ("/" + ReadEscapes(safe));
        assert ReadEscapes(json) == "<" + ("/" + ReadEscapes(rest));
      } else if |json| >= 2 && json[0] == '\\' {
        assert !("</" <= json[1..]);
        assert json[1..][1..] == json[2..];
        InlineSafeKeepsMeaning(json[2..]);
        var safe := InlineSafe(json[2..]);
        assert InlineSafe(json) == [json[0]] + ([json[1]] + safe);
        assert InlineSafe(json)[2..] == safe && InlineSafe(json)[..2] == json[..2];
      } else {
        InlineSafeKeepsMeaning(json[1..]);
        var safe := InlineSafe(json[1..]);
        assert ([json[0]] + safe)[1..] == safe;
        if |json| == 1 {
          assert json[1..] == "";
        }
      }
    }
  }
}
