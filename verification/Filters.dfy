/** Filter parameters: `filter[name]` or `filter[name][operator]`, allowlisted, with parsed values. */
module Filters {
  import opened Wrappers
  import opened Strings
  import opened CursorCodec

  /** A parsed value: one for most operators, several for `in`, a flag for `isNull`. */
  datatype FilterValue = One(value: Value) | Several(values: seq<Value>) | Flag(isNull: bool)

  datatype FilterClause = FilterClause(name: string, operator: string, value: FilterValue)

  /** An allowed field: how its values are read (None when they are refused) and its operators. */
  datatype FilterField = FilterField(parse: string -> Option<Value>, operators: set<string>)

  type Fields = map<string, FilterField>

  const OPERATORS: set<string> := {"exact", "contains", "gt", "gte", "lt", "lte", "in", "isNull"}

  predicate Bracketless(s: string) {
    s != "" && '[' !in s && ']' !in s
  }

  /** The operator in trailing brackets; none at all means `exact`. */
  function ReadOperator(tail: string): Option<string> {
    if tail == "" then Some("exact")
    else if |tail| > 2 && tail[0] == '[' && tail[|tail| - 1] == ']' && Bracketless(tail[1..|tail| - 1])
    then Some(tail[1..|tail| - 1])
    else None
  }

  /** Name and operator of a parameter. */
  function ReadName(parameter: string): Option<(string, string)> {
    if !("filter[" <= parameter) then None
    else
      var rest := parameter[7..];
      var i := IndexOf(rest, ']');
      if i == |rest| || !Bracketless(rest[..i]) then None
      else
        var operator := ReadOperator(rest[i + 1..]);
        if operator.None? then None else Some((rest[..i], operator.value))
  }

  predicate AllRead(tokens: seq<string>, field: FilterField) {
    forall i :: 0 <= i < |tokens| ==> tokens[i] != "" && field.parse(tokens[i]).Some?
  }

  function ReadValue(raw: string, field: FilterField, operator: string): Option<FilterValue> {
    if raw == "" then None
    else if operator == "isNull" then (if raw == "true" || raw == "false" then Some(Flag(raw == "true")) else None)
    else if operator == "in" then
      var tokens := SplitComma(raw);
      if !AllRead(tokens, field) then None
      else Some(Several(seq(|tokens|, i requires 0 <= i < |tokens| && field.parse(tokens[i]).Some? =>
                                        field.parse(tokens[i]).value)))
    else
      var value := field.parse(raw);
      if value.None? then None else Some(One(value.value))
  }

  /** None is the INVALID_FILTER error. */
  function ParseFilter(parameter: string, raw: string, fields: Fields): Option<FilterClause> {
    var read := ReadName(parameter);
    if read.None? || read.value.1 !in OPERATORS || read.value.0 !in fields then None
    else
      var (name, operator) := read.value;
      if operator !in fields[name].operators then None
      else
        var value := ReadValue(raw, fields[name], operator);
        if value.None? then None else Some(FilterClause(name, operator, value.value))
  }

  /** A clause as a parameter name; `exact` may be left out. */
  function WriteName(name: string, operator: string): string {
    "filter[" + name + "][" + operator + "]"
  }

  /** Name and operator are read back from either form, whatever characters but brackets they use. */
  lemma NameReads(name: string, operator: string)
    requires Bracketless(name) && Bracketless(operator)
    ensures ReadName(WriteName(name, operator)) == Some((name, operator))
    ensures ReadName("filter[" + name + "]") == Some((name, "exact"))
  {
    hide ReadName, ReadOperator;
    OperatorReads(operator);
    RestReads(name, "[" + operator + "]");
    RestReads(name, "");
    assert WriteName(name, operator) == "filter[" + (name + "]" + ("[" + operator + "]"));
    assert "filter[" + name + "]" == "filter[" + (name + "]" + "");
  }

  lemma OperatorReads(operator: string)
    requires Bracketless(operator)
    ensures ReadOperator("[" + operator + "]") == Some(operator) && ReadOperator("") == Some("exact")
  {
    var tail := "[" + operator + "]";
    assert tail[1..|tail| - 1] == operator;
  }

  lemma RestReads(name: string, tail: string)
    requires Bracketless(name)
    ensures var parameter := "filter[" + (name + "]" + tail);
            ReadName(parameter) == if ReadOperator(tail).None? then None else Some((name, ReadOperator(tail).value))
  {
    hide ReadOperator;
    var rest := name + "]" + tail;
    assert ("filter[" + rest)[7..] == rest;
    IndexOfAppend(name, ']', tail);
    assert rest[..|name|] == name && rest[|name| + 1..] == tail;
  }

  /** Several values are read back from their list, and each is what its own text reads as. */
  lemma InReads(texts: seq<string>, field: FilterField)
    requires texts != [] && AllRead(texts, field) && forall i :: 0 <= i < |texts| ==> ',' !in texts[i]
    ensures
      var value := ReadValue(JoinComma(texts), field, "in");
      && value.Some? && value.value.Several? && |value.value.values| == |texts|
      && forall i :: 0 <= i < |texts| ==> Some(value.value.values[i]) == field.parse(texts[i])
  {
    SplitJoined(texts);
    assert JoinComma(texts) == "" ==> SplitComma("") == [""];
  }

  /** Only allowed fields with allowed operators are accepted, and a flag only for `isNull`. */
  lemma ClauseIsAllowed(parameter: string, raw: string, fields: Fields)
    requires ParseFilter(parameter, raw, fields).Some?
    ensures var clause := ParseFilter(parameter, raw, fields).value;
            && clause.name in fields && clause.operator in fields[clause.name].operators && clause.operator in OPERATORS
            && raw != "" && (clause.value.Flag? <==> clause.operator == "isNull")
            && (clause.value.Several? <==> clause.operator == "in")
  {}

  // ---- Exactly what is accepted ----

  lemma IndexOfFirst(s: string, c: char)
    ensures c !in s[..IndexOf(s, c)]
  {
    if s != "" && s[0] != c {
      IndexOfFirst(s[1..], c);
      assert s[..IndexOf(s, c)] == [s[0]] + s[1..][..IndexOf(s[1..], c)];
    }
  }

  lemma OperatorIs(tail: string, operator: string)
    ensures ReadOperator(tail) == Some(operator)
            <==> (tail == "" && operator == "exact") || (Bracketless(operator) && tail == "[" + operator + "]")
  {
    if |tail| > 2 && tail[0] == '[' && tail[|tail| - 1] == ']' {
      assert tail == "[" + tail[1..|tail| - 1] + "]";
    }
    if Bracketless(operator) { OperatorReads(operator); }
  }

  /** The two spellings of a filter parameter. */
  predicate Spells(parameter: string, name: string, operator: string) {
    && name != "" && '[' !in name && ']' !in name
    && operator != "" && '[' !in operator && ']' !in operator
    && (parameter == "filter[" + name + "][" + operator + "]"
        || (operator == "exact" && parameter == "filter[" + name + "]"))
  }

  lemma NameSplits(parameter: string, name: string, operator: string)
    requires ReadName(parameter) == Some((name, operator))
    ensures Bracketless(name) && exists tail :: parameter == "filter[" + (name + "]" + tail)
                                               && ReadOperator(tail) == Some(operator)
  {
    hide ReadOperator;
    var rest := parameter[7..];
    var tail := rest[|name| + 1..];
    assert rest == name + "]" + tail && parameter == "filter[" + rest;
    assert parameter == "filter[" + (name + "]" + tail) && ReadOperator(tail) == Some(operator);
  }

  lemma NameIs(parameter: string, name: string, operator: string)
    ensures ReadName(parameter) == Some((name, operator)) <==> Spells(parameter, name, operator)
  {
    hide ReadName, ReadOperator;
    if ReadName(parameter) == Some((name, operator)) {
      NameSplits(parameter, name, operator);
      var tail :| parameter == "filter[" + (name + "]" + tail) && ReadOperator(tail) == Some(operator);
      OperatorIs(tail, operator);
      assert Bracketless("exact");
      assert "filter[" + (name + "]" + ("[" + operator + "]")) == "filter[" + name + "][" + operator + "]";
    }
    if Spells(parameter, name, operator) { NameReads(name, operator); }
  }

  /** What the text of a filter stands for: a flag for `isNull`, one or more texts between commas for `in`,
      else the text itself, each read by the field's own parser. */
  ghost predicate Means(raw: string, field: FilterField, operator: string, value: FilterValue) {
    if operator == "isNull" then (raw == "true" && value == Flag(true)) || (raw == "false" && value == Flag(false))
    else if operator == "in" then exists texts :: MeansList(raw, field, texts, value)
    else value.One? && field.parse(raw) == Some(value.value)
  }

  ghost predicate MeansList(raw: string, field: FilterField, texts: seq<string>, value: FilterValue) {
    && texts != [] && CommaFree(texts) && raw == JoinComma(texts)
    && value.Several? && |value.values| == |texts|
    && forall i :: 0 <= i < |texts| ==> texts[i] != "" && field.parse(texts[i]) == Some(value.values[i])
  }

  lemma ValueIs(raw: string, field: FilterField, operator: string, value: FilterValue)
    ensures ReadValue(raw, field, operator) == Some(value) <==> raw != "" && Means(raw, field, operator, value)
  {
    if operator == "in" {
      if ReadValue(raw, field, operator) == Some(value) {
        JoinedSplit(raw);
        assert MeansList(raw, field, SplitComma(raw), value);
      }
      if texts :| raw != "" && MeansList(raw, field, texts, value) {
        SplitJoined(texts);
        ListIs(raw, field, texts, value);
      }
    }
  }

  lemma ListIs(raw: string, field: FilterField, texts: seq<string>, value: FilterValue)
    requires raw != "" && SplitComma(raw) == texts && MeansList(raw, field, texts, value)
    ensures ReadValue(raw, field, "in") == Some(value)
  {
    var read := ReadValue(raw, field, "in").value.values;
    assert forall i :: 0 <= i < |texts| ==> read[i] == value.values[i];
    assert read == value.values;
  }

  /** A filter parameter is accepted as this clause if and only if it spells an allowed field and one of its
      operators, and its text stands for the value. */
  lemma FilterIs(parameter: string, raw: string, fields: Fields, clause: FilterClause)
    ensures ParseFilter(parameter, raw, fields) == Some(clause)
            <==> && Spells(parameter, clause.name, clause.operator)
                 && clause.operator in {"exact", "contains", "gt", "gte", "lt", "lte", "in", "isNull"}
                 && clause.name in fields && clause.operator in fields[clause.name].operators
                 && raw != "" && Means(raw, fields[clause.name], clause.operator, clause.value)
  {
    NameIs(parameter, clause.name, clause.operator);
    hide ReadName, Spells, ReadValue, Means;
    if clause.name in fields { ValueIs(raw, fields[clause.name], clause.operator, clause.value); }
  }
}
