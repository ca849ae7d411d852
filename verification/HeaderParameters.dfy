/** Media types and ranges with parameters: `token; name=value; name="value"`. */
module HeaderParameters {
  import opened Wrappers
  import opened Quoting
  import opened Strings

  /** A parameter name, case-folded, with its value as written. */
  type Parameter = (string, string)

  predicate Blank(c: char) {
    c == ' ' || c == '\t'
  }

  function LStrip(s: string): string {
    if s != "" && Blank(s[0]) then LStrip(s[1..]) else s
  }

  function RStrip(s: string): string
    decreases |s|
  {
    if s != "" && Blank(s[|s| - 1]) then RStrip(s[..|s| - 1]) else s
  }

  function Strip(s: string): string {
    RStrip(LStrip(s))
  }

  function ParseParameter(raw: string, fold: string -> string): Option<Parameter> {
    var parameter := LStrip(raw);
    var i := IndexOf(parameter, '=');
    if i == |parameter| then None
    else
      var name, value := parameter[..i], parameter[i + 1..];
      if name != Strip(name) || value != Strip(value) then None
      else if !IsToken(fold(name)) || Unquoted(value).None? then None
      else Some((fold(name), value))
  }

  predicate Named(parameters: seq<Parameter>, name: string) {
    exists i :: 0 <= i < |parameters| && parameters[i].0 == name
  }

  function Collect(raws: seq<string>, fold: string -> string): Option<seq<Parameter>>
    decreases |raws|
  {
    if raws == [] then Some([])
    else
      var before, parameter := Collect(raws[..|raws| - 1], fold), ParseParameter(raws[|raws| - 1], fold);
      if before.None? || parameter.None? || Named(before.value, parameter.value.0) then None
      else Some(before.value + [parameter.value])
  }

  function Parsed(value: string, fold: string -> string): Option<(string, seq<Parameter>)> {
    if !Balanced(value) then None
    else
      var parts := Parts(value, ';');
      var token, parameters := fold(Strip(parts[0])), Collect(parts[1..], fold);
      if token == "" || parameters.None? then None else Some((token, parameters.value))
  }

  lemma {:induction false} CollectFails(raws: seq<string>, i: nat, fold: string -> string)
    requires i <= |raws| && Collect(raws[..i], fold).None?
    ensures Collect(raws, fold).None?
    decreases |raws| - i
  {
    if i < |raws| {
      assert raws[..i + 1][..i] == raws[..i];
      CollectFails(raws, i + 1, fold);
    } else {
      assert raws[..i] == raws;
    }
  }

  method ParseParameterizedValue(value: string, fold: string -> string)
    returns (result: Option<(string, seq<Parameter>)>)
    ensures result == Parsed(value, fold)
  {
    var split := SplitQuoted(value, ';');
    if split.None? {
      return None;
    }
    var parts := split.value;
    var token := fold(Strip(parts[0]));
    if token == "" {
      return None;
    }
    var raws, parameters := parts[1..], [];
    for i := 0 to |raws|
      invariant Collect(raws[..i], fold) == Some(parameters)
    {
      assert raws[..i + 1][..i] == raws[..i];
      var parameter := ParseParameter(raws[i], fold);
      if parameter.None? || Named(parameters, parameter.value.0) {
        CollectFails(raws, i + 1, fold);
        return None;
      }
      parameters := parameters + [parameter.value];
    }
    assert raws[..|raws|] == raws;
    result := Some((token, parameters));
  }

  // ---- Rendering a list and parsing it back ----

  function Rendered(padding: string, parameter: Parameter): string {
    padding + parameter.0 + "=" + parameter.1
  }

  predicate AllBlank(s: string) {
    forall i :: 0 <= i < |s| ==> s[i] == ' ' || s[i] == '\t'
  }

  /** A name that folds to itself, with a value that unquotes. */
  predicate Renderable(parameter: Parameter, fold: string -> string) {
    IsToken(parameter.0) && fold(parameter.0) == parameter.0 && Unquoted(parameter.1).Some?
  }

  lemma {:induction false} LStripPadding(padding: string, s: string)
    requires AllBlank(padding) && s != "" && !Blank(s[0])
    ensures LStrip(padding + s) == s
  {
    if padding == "" {
      assert padding + s == s;
    } else {
      assert (padding + s)[1..] == padding[1..] + s;
      LStripPadding(padding[1..], s);
    }
  }

  lemma ParsesRendered(padding: string, parameter: Parameter, fold: string -> string)
    requires AllBlank(padding) && Renderable(parameter, fold)
    ensures ParseParameter(Rendered(padding, parameter), fold) == Some(parameter)
  {
    hide LStrip, Strip, IsToken, Unquoted, IndexOf;
    var name, value := parameter.0, parameter.1;
    var text := name + ['='] + value;
    assert Rendered(padding, parameter) == padding + text;
    NameIsStripped(name);
    LStripPadding(padding, text);
    IndexOfAppend(name, '=', value);
    assert text[..|name|] == name && text[|name| + 1..] == value;
    ValueIsStripped(value);
  }

  lemma NameIsStripped(name: string)
    requires IsToken(name)
    ensures name != "" && !Blank(name[0]) && '=' !in name && Strip(name) == name
  {
    assert TokenChar(name[0]) && TokenChar(name[|name| - 1]);
  }

  lemma ValueIsStripped(value: string)
    requires Unquoted(value).Some?
    ensures Strip(value) == value
  {
    assert value[0] == '"' || (TokenChar(value[0]) && TokenChar(value[|value| - 1]));
  }

  lemma RenderedIsSound(padding: string, parameter: Parameter, fold: string -> string)
    requires AllBlank(padding) && Renderable(parameter, fold)
    ensures Balanced(Rendered(padding, parameter)) && Bare(Rendered(padding, parameter), ';')
  {
    var name := padding + parameter.0 + "=";
    NoQuotes(name);
    UnquotedIsSound(parameter.1, ';');
    SoundAppend(name, parameter.1, ';');
  }

  /** Text without quotes and semicolons is balanced and not split. */
  lemma {:induction false} NoQuotes(s: string)
    requires '"' !in s && ';' !in s
    ensures Balanced(s) && Bare(s, ';')
    decreases |s|
  {
    if s != "" {
      var init, c := s[..|s| - 1], s[|s| - 1];
      assert s == init + [c];
      NoQuotes(init);
      BareExtend(init, c, ';');
    }
  }

  lemma {:induction false} SoundAppend(a: string, b: string, delimiter: char)
    requires Balanced(a) && Bare(a, delimiter) && Bare(b, delimiter)
    ensures Bare(a + b, delimiter) && ModeAfter(a + b) == ModeAfter(b)
    decreases |b|
  {
    ModeAppend(Plain, a, b);
    if b == "" {
      assert a + b == a;
    } else {
      var init, c := b[..|b| - 1], b[|b| - 1];
      assert b == init + [c] && a + b == (a + init) + [c];
      BareShorter(init, c, delimiter);
      SoundAppend(a, init, delimiter);
      BareExtend(a + init, c, delimiter);
    }
  }

  /** The text of a parameter list; each parameter after its own padding. */
  function RenderAll(paddings: seq<string>, parameters: seq<Parameter>): seq<string>
    requires |paddings| == |parameters|
  {
    seq(|parameters|, i requires 0 <= i < |parameters| => Rendered(paddings[i], parameters[i]))
  }

  ghost predicate AllRenderable(paddings: seq<string>, parameters: seq<Parameter>, fold: string -> string) {
    && |paddings| == |parameters|
    && (forall i :: 0 <= i < |paddings| ==> AllBlank(paddings[i]))
    && (forall i :: 0 <= i < |parameters| ==> Renderable(parameters[i], fold))
    && (forall i, j :: 0 <= i < j < |parameters| ==> parameters[i].0 != parameters[j].0)
  }

  lemma {:induction false} CollectsRendered(paddings: seq<string>, parameters: seq<Parameter>, fold: string -> string)
    requires AllRenderable(paddings, parameters, fold)
    ensures Collect(RenderAll(paddings, parameters), fold) == Some(parameters)
    decreases |parameters|
  {
    if parameters == [] {
      assert RenderAll(paddings, parameters) == [];
    } else {
      var n := |parameters| - 1;
      FewerRenderable(paddings, parameters, fold);
      CollectsRendered(paddings[..n], parameters[..n], fold);
      CollectsLast(paddings, parameters, fold);
    }
  }

  lemma CollectsLast(paddings: seq<string>, parameters: seq<Parameter>, fold: string -> string)
    requires AllRenderable(paddings, parameters, fold) && parameters != []
    requires var n := |parameters| - 1;
             Collect(RenderAll(paddings[..n], parameters[..n]), fold) == Some(parameters[..n])
    ensures Collect(RenderAll(paddings, parameters), fold) == Some(parameters)
  {
    FewerRenderable(paddings, parameters, fold);
    hide ParseParameter, Rendered, RenderAll, Collect, Named, AllBlank, Renderable, AllRenderable;
    var n := |parameters| - 1;
    RenderedNext(paddings, parameters);
    ParsesRendered(paddings[n], parameters[n], fold);
    CollectNext(RenderAll(paddings[..n], parameters[..n]), Rendered(paddings[n], parameters[n]), parameters[..n],
                parameters[n], fold);
    assert parameters == parameters[..n] + [parameters[n]];
  }

  lemma FewerRenderable(paddings: seq<string>, parameters: seq<Parameter>, fold: string -> string)
    requires AllRenderable(paddings, parameters, fold) && parameters != []
    ensures var n := |parameters| - 1;
            && AllRenderable(paddings[..n], parameters[..n], fold)
            && AllBlank(paddings[n]) && Renderable(parameters[n], fold) && !Named(parameters[..n], parameters[n].0)
  {
    hide AllBlank, Renderable;
  }

  lemma RenderedNext(paddings: seq<string>, parameters: seq<Parameter>)
    requires |paddings| == |parameters| > 0
    ensures var n := |parameters| - 1;
            RenderAll(paddings, parameters)
            == RenderAll(paddings[..n], parameters[..n]) + [Rendered(paddings[n], parameters[n])]
  {}

  lemma CollectNext(raws: seq<string>, raw: string, before: seq<Parameter>, parameter: Parameter,
                    fold: string -> string)
    requires Collect(raws, fold) == Some(before) && ParseParameter(raw, fold) == Some(parameter)
    requires !Named(before, parameter.0)
    ensures Collect(raws + [raw], fold) == Some(before + [parameter])
  {
    hide ParseParameter;
    assert (raws + [raw])[..|raws|] == raws;
  }

  /** A rendered list of parameters with distinct names parses back to exactly those parameters. */
  lemma RenderedParses(token: string, paddings: seq<string>, parameters: seq<Parameter>, fold: string -> string)
    requires AllRenderable(paddings, parameters, fold)
    requires token != "" && fold(token) == token && Strip(token) == token && '"' !in token && ';' !in token
    ensures Parsed(Join([token] + RenderAll(paddings, parameters), ';'), fold) == Some((token, parameters))
  {
    hide Bare, Rendered, AllBlank, Renderable, Collect, Parts, Join;
    var parts := [token] + RenderAll(paddings, parameters);
    NoQuotes(token);
    forall k | 0 <= k < |parts| ensures Bare(parts[k], ';') && Balanced(parts[k]) {
      if k > 0 { RenderedIsSound(paddings[k - 1], parameters[k - 1], fold); }
    }
    SplitJoin(parts, ';');
    CollectsRendered(paddings, parameters, fold);
    assert parts[1..] == RenderAll(paddings, parameters);
  }

  // ---- Exactly what is accepted ----

  /** Neither starts nor ends with a space or a tab. */
  predicate Trim(s: string) {
    s != "" ==> s[0] !in " \t" && s[|s| - 1] !in " \t"
  }

  lemma {:induction false} LStripIs(s: string) returns (padding: string)
    ensures s == padding + LStrip(s) && AllBlank(padding) && (LStrip(s) != "" ==> !Blank(LStrip(s)[0]))
  {
    padding := "";
    if s != "" && Blank(s[0]) {
      padding := LStripIs(s[1..]);
      padding := [s[0]] + padding;
    }
  }

  lemma {:induction false} RStripIs(s: string) returns (padding: string)
    ensures s == RStrip(s) + padding && AllBlank(padding) && (RStrip(s) != "" ==> !Blank(RStrip(s)[|RStrip(s)| - 1]))
    decreases |s|
  {
    padding := "";
    if s != "" && Blank(s[|s| - 1]) {
      padding := RStripIs(s[..|s| - 1]);
      padding := padding + [s[|s| - 1]];
    }
  }

  /** Stripping takes the blanks off both ends. */
  lemma StripIs(s: string) returns (before: string, after: string)
    ensures s == before + Strip(s) + after && AllBlank(before) && AllBlank(after) && Trim(Strip(s))
  {
    before := LStripIs(s);
    after := RStripIs(LStrip(s));
    assert LStrip(s) == Strip(s) + after;
    assert Strip(s) != "" ==> LStrip(s)[0] == Strip(s)[0];
  }

  lemma StrippedIs(s: string)
    ensures Strip(s) == s <==> Trim(s)
  {
    var before, after := StripIs(s);
  }

  /** A parameter as it may be written: blanks, a name without blanks around it, an equals sign, and a value
      that is a token or a quoted string. */
  ghost predicate Writes(raw: string, padding: string, name: string, value: string, fold: string -> string) {
    && raw == padding + name + "=" + value && AllBlank(padding) && '=' !in name && Trim(name) && Trim(value)
    && IsToken(fold(name)) && Unquoted(value).Some?
  }

  lemma FirstEquals(s: string)
    ensures '=' !in s[..IndexOf(s, '=')]
  {
    if s != "" && s[0] != '=' {
      FirstEquals(s[1..]);
      assert s[..IndexOf(s, '=')] == [s[0]] + s[1..][..IndexOf(s[1..], '=')];
    }
  }

  /** What an accepted parameter was written as. */
  lemma AcceptedIsWritten(raw: string, fold: string -> string, parameter: Parameter)
    returns (padding: string, name: string)
    requires ParseParameter(raw, fold) == Some(parameter)
    ensures Writes(raw, padding, name, parameter.1, fold) && fold(name) == parameter.0
  {
    var text := LStrip(raw);
    padding := LStripIs(raw);
    hide LStrip, IsToken, Unquoted, AllBlank, Trim;
    name := NameOf(text, parameter.1);
    StrippedIs(name);
    StrippedIs(parameter.1);
    assert raw == padding + name + "=" + parameter.1;
  }

  /** The text before the first equals sign, where the text after it is `value`. */
  lemma NameOf(text: string, value: string) returns (name: string)
    requires IndexOf(text, '=') < |text| && text[IndexOf(text, '=') + 1..] == value
    ensures name == text[..IndexOf(text, '=')] && '=' !in name && text == name + "=" + value
  {
    name := text[..IndexOf(text, '=')];
    FirstEquals(text);
  }

  /** A parameter is accepted if and only if it is so written; its name is folded, its value kept. */
  lemma ParameterIs(raw: string, fold: string -> string, parameter: Parameter)
    ensures ParseParameter(raw, fold) == Some(parameter)
            <==> exists padding, name :: Writes(raw, padding, name, parameter.1, fold) && fold(name) == parameter.0
  {
    hide ParseParameter, Writes;
    if ParseParameter(raw, fold) == Some(parameter) {
      var padding, name := AcceptedIsWritten(raw, fold, parameter);
    }
    if padding, name :| Writes(raw, padding, name, parameter.1, fold) && fold(name) == parameter.0 {
      WrittenParses(raw, padding, name, parameter.1, fold);
    }
  }

  lemma WrittenParses(raw: string, padding: string, name: string, value: string, fold: string -> string)
    requires Writes(raw, padding, name, value, fold)
    ensures ParseParameter(raw, fold) == Some((fold(name), value))
  {
    var text := name + ['='] + value;
    WrittenStrips(padding, name, value);
    StrippedIs(name);
    StrippedIs(value);
    hide ParseParameter, LStrip, Strip, IsToken, Unquoted, IndexOf, AllBlank, Trim;
    IndexOfAppend(name, '=', value);
    TextParses(raw, text, name, value, fold);
  }

  lemma TextParses(raw: string, text: string, name: string, value: string, fold: string -> string)
    requires LStrip(raw) == text == name + ['='] + value && IndexOf(text, '=') == |name|
    requires Strip(name) == name && Strip(value) == value && IsToken(fold(name)) && Unquoted(value).Some?
    ensures ParseParameter(raw, fold) == Some((fold(name), value))
  {
    hide LStrip, Strip, IsToken, Unquoted, IndexOf;
    assert text[..|name|] == name && text[|name| + 1..] == value;
  }

  lemma WrittenStrips(padding: string, name: string, value: string)
    requires AllBlank(padding) && Trim(name)
    ensures LStrip(padding + name + "=" + value) == name + ['='] + value
  {
    var text := name + ['='] + value;
    assert padding + name + "=" + value == padding + text;
    assert text[0] == if name == "" then '=' else name[0];
    LStripPadding(padding, text);
  }

  predicate DistinctNames(parameters: seq<Parameter>) {
    forall i, j :: 0 <= i < j < |parameters| ==> parameters[i].0 != parameters[j].0
  }

  ghost predicate AllParse(raws: seq<string>, parameters: seq<Parameter>, fold: string -> string) {
    |raws| == |parameters| && forall i :: 0 <= i < |raws| ==> ParseParameter(raws[i], fold) == Some(parameters[i])
  }

  /** A list of parameters is accepted if and only if each is and no name comes twice. */
  lemma {:induction false} CollectIs(raws: seq<string>, parameters: seq<Parameter>, fold: string -> string)
    ensures Collect(raws, fold) == Some(parameters) <==> AllParse(raws, parameters, fold) && DistinctNames(parameters)
    decreases |raws|
  {
    hide ParseParameter;
    if raws != [] {
      var n := |raws| - 1;
      if Collect(raws, fold) == Some(parameters) {
        CollectIs(raws[..n], Collect(raws[..n], fold).value, fold);
      }
      if AllParse(raws, parameters, fold) && DistinctNames(parameters) {
        CollectIs(raws[..n], parameters[..n], fold);
        assert parameters == parameters[..n] + [parameters[n]];
      }
    }
  }

  /** The whole value, as it may be written: a token and any parameters between semicolons that stand outside
      quotes. */
  ghost predicate Composes(value: string, parts: seq<string>, parameters: seq<Parameter>, fold: string -> string) {
    && parts != [] && value == Join(parts, ';')
    && (forall k :: 0 <= k < |parts| ==> Bare(parts[k], ';') && Balanced(parts[k]))
    && AllParse(parts[1..], parameters, fold) && DistinctNames(parameters)
  }

  /** A header value is accepted if and only if it is so composed and its token is not empty. */
  lemma ParsedIs(value: string, token: string, parameters: seq<Parameter>, fold: string -> string)
    ensures Parsed(value, fold) == Some((token, parameters))
            <==> token != ""
                 && exists parts :: Composes(value, parts, parameters, fold) && token == fold(Strip(parts[0]))
  {
    hide Bare, Collect, Join, Strip, AllParse, DistinctNames;
    if Parsed(value, fold) == Some((token, parameters)) {
      var parts := Parts(value, ';');
      JoinSplit(value, ';');
      SplitIsSound(value);
      CollectIs(parts[1..], parameters, fold);
      assert Composes(value, parts, parameters, fold);
    }
    if parts :| Composes(value, parts, parameters, fold) && token == fold(Strip(parts[0])) {
      SplitJoin(parts, ';');
      CollectIs(parts[1..], parameters, fold);
    }
  }

  lemma SplitIsSound(value: string)
    requires Balanced(value)
    ensures var parts := Parts(value, ';');
            forall k :: 0 <= k < |parts| ==> Bare(parts[k], ';') && Balanced(parts[k])
  {
    PartsAreSound(value, ';');
  }
}
