/** Query parameters of a collection request: parsed one by one, then checked together. */
module QueryParams {
  import opened Wrappers
  import opened SortTerms
  import Sorting
  import Decimal
  import opened CursorCodec
  import opened Filters
  import opened Strings

  type Item = (string, string)

  const DEFAULT_PAGE_SIZE: nat := 20
  const MAX_PAGE_SIZE: nat := 100
  const MAX_PAGE_OFFSET: nat := 0x1F_FFFF_FFFF_FFFF

  datatype Error = InvalidFilter | InvalidSort | InvalidInclude | InvalidPage | InvalidQueryParameter

  /** The error and the parameter it is reported for. */
  datatype Result<+T> = Ok(value: T) | Err(error: Error, parameter: string)

  /** A decoded position; an empty `raw` addresses the start or the end. */
  datatype PageCursor = PageCursor(raw: string, before: bool, values: seq<Value>)

  datatype PageSpec = PageSpec(number: nat, size: nat, cursor: Option<PageCursor>, totals: bool)

  datatype QuerySpec = QuerySpec(filters: seq<FilterClause>, sorts: seq<SortTerm>, includes: seq<string>,
                                 page: PageSpec)

  /** What a controller allows. */
  datatype Api = Api(policy: QueryPolicy, codec: Codec, includes: set<string>, filters: Fields)

  // ---- Single parameters ----

  function Token(token: string): SortTerm {
    if token != "" && token[0] == '-' then SortTerm(token[1..], true, None) else SortTerm(token, false, None)
  }

  predicate NamedIn(terms: seq<SortTerm>, name: string) {
    exists i :: 0 <= i < |terms| && terms[i].name == name
  }

  /** Allowlisted names, each once. */
  function Terms(tokens: seq<string>, policy: QueryPolicy): Option<seq<SortTerm>>
    decreases |tokens|
  {
    if tokens == [] then Some([])
    else
      var before, term := Terms(tokens[..|tokens| - 1], policy), Token(tokens[|tokens| - 1]);
      if before.None? || term.name == "" || term.name !in policy.sorts || NamedIn(before.value, term.name) then None
      else Some(before.value + [term])
  }

  function ParseSort(raw: string, policy: QueryPolicy): Option<seq<SortTerm>> {
    var terms := Terms(SplitComma(raw), policy);
    if terms.None? then None else Some(AppendTieBreaker(terms.value, policy))
  }

  function ParseInclude(raw: string, includes: set<string>): Option<seq<string>> {
    if raw == "" then Some([])
    else
      var tokens := SplitComma(raw);
      if exists i :: 0 <= i < |tokens| && tokens[i] !in includes then None else Some(Sorting.Distinct(tokens))
  }

  // ---- One parameter after the other ----

  /** What has been read; a page parameter that is present was seen. */
  datatype Read = Read(filters: seq<FilterClause>, sorts: Option<seq<SortTerm>>, includes: Option<seq<string>>,
                       number: Option<nat>, size: Option<nat>, totals: Option<bool>, cursor: Option<(bool, string)>)

  const NOTHING: Read := Read([], None, None, None, None, None, None)

  predicate Filtered(filters: seq<FilterClause>, clause: FilterClause) {
    exists i :: 0 <= i < |filters| && filters[i].name == clause.name && filters[i].operator == clause.operator
  }

  function ErrorCode(parameter: string): Error {
    if "filter" <= parameter then InvalidFilter
    else if "sort" <= parameter then InvalidSort
    else if "include" <= parameter then InvalidInclude
    else if "page" <= parameter then InvalidPage
    else InvalidQueryParameter
  }

  predicate IsPageParameter(parameter: string) {
    parameter == "page" || "page[" <= parameter
  }

  function NextPage(read: Read, item: Item): Result<Read> {
    var (parameter, raw) := item;
    if parameter == "page[totals]" then
      if read.totals.Some? || (raw != "true" && raw != "false") then Err(InvalidPage, parameter)
      else Ok(read.(totals := Some(raw == "true")))
    else if parameter == "page[after]" || parameter == "page[before]" then
      if read.cursor.Some? then Err(InvalidPage, parameter)
      else Ok(read.(cursor := Some((parameter == "page[before]", raw))))
    else if parameter == "page[number]" then
      var number := Decimal.PositiveInteger(raw);
      if read.number.Some? || number.None? then Err(InvalidPage, parameter) else Ok(read.(number := number))
    else if parameter == "page[size]" then
      var size := Decimal.PositiveInteger(raw);
      if read.size.Some? || size.None? then Err(InvalidPage, parameter)
      else Ok(read.(size := Some(if size.value < MAX_PAGE_SIZE then size.value else MAX_PAGE_SIZE)))
    else Err(ErrorCode(parameter), parameter)
  }

  function Next(api: Api, read: Read, item: Item): Result<Read> {
    var (parameter, raw) := item;
    if "filter" <= parameter then
      var clause := ParseFilter(parameter, raw, api.filters);
      if clause.None? || Filtered(read.filters, clause.value) then Err(InvalidFilter, parameter)
      else Ok(read.(filters := read.filters + [clause.value]))
    else if parameter == "sort" then
      var sorts := ParseSort(raw, api.policy);
      if read.sorts.Some? || sorts.None? then Err(InvalidSort, parameter) else Ok(read.(sorts := sorts))
    else if parameter == "include" then
      var includes := ParseInclude(raw, api.includes);
      if read.includes.Some? || includes.None? then Err(InvalidInclude, parameter) else Ok(read.(includes := includes))
    else NextPage(read, item)
  }

  function ReadAll(api: Api, items: seq<Item>): Result<Read>
    decreases |items|
  {
    if items == [] then Ok(NOTHING)
    else
      var before := ReadAll(api, items[..|items| - 1]);
      if before.Err? then before else Next(api, before.value, items[|items| - 1])
  }

  // ---- All together ----

  function PageNumber(read: Read): nat {
    if read.number.Some? then read.number.value else 1
  }

  function PageSize(read: Read): nat {
    if read.size.Some? then read.size.value else DEFAULT_PAGE_SIZE
  }

  function EffectiveSorts(api: Api, read: Read): seq<SortTerm> {
    if read.sorts.Some? && read.sorts.value != [] then read.sorts.value
    else AppendTieBreaker(api.policy.defaultSort, api.policy)
  }

  predicate InRange(number: nat, size: nat) {
    number >= 1 && (number - 1) * size <= MAX_PAGE_OFFSET
  }

  function Checked(api: Api, read: Read): Result<QuerySpec> {
    if !InRange(PageNumber(read), PageSize(read)) then Err(InvalidPage, "page[number]")
    else if read.cursor.Some? && read.number.Some? then Err(InvalidPage, "page[number]")
    else
      var sorts := EffectiveSorts(api, read);
      var includes := if read.includes.Some? then read.includes.value else [];
      var totals := read.totals == Some(true);
      if read.cursor.None? then
        Ok(QuerySpec(read.filters, sorts, includes, PageSpec(PageNumber(read), PageSize(read), None, totals)))
      else
        var (before, raw) := read.cursor.value;
        var values := Decoded(raw, sorts, api.policy, api.codec);
        if values.None? then Err(InvalidPage, if before then "page[before]" else "page[after]")
        else
          Ok(QuerySpec(read.filters, sorts, includes,
                       PageSpec(1, PageSize(read), Some(PageCursor(raw, before, values.value)), totals)))
  }

  function Query(api: Api, items: seq<Item>): Result<QuerySpec> {
    var read := ReadAll(api, items);
    if read.Err? then Err(read.error, read.parameter) else Checked(api, read.value)
  }

  lemma {:induction false} ReadFails(api: Api, items: seq<Item>, i: nat)
    requires i <= |items| && ReadAll(api, items[..i]).Err?
    ensures ReadAll(api, items) == ReadAll(api, items[..i])
    decreases |items| - i
  {
    if i < |items| {
      assert items[..i + 1][..i] == items[..i];
      ReadFails(api, items, i + 1);
    } else {
      assert items[..i] == items;
    }
  }

  method ParseQuery(api: Api, items: seq<Item>) returns (query: Result<QuerySpec>)
    ensures query == Query(api, items)
  {
    hide Next, Checked;
    var read := NOTHING;
    for i := 0 to |items|
      invariant ReadAll(api, items[..i]) == Ok(read)
    {
      assert items[..i + 1][..i] == items[..i];
      var next := Next(api, read, items[i]);
      if next.Err? {
        ReadFails(api, items, i + 1);
        return Err(next.error, next.parameter);
      }
      read := next.value;
    }
    assert items[..|items|] == items;
    query := Checked(api, read);
  }

  // ---- What parsing guarantees ----

  lemma {:induction false} TermsAreDistinct(tokens: seq<string>, policy: QueryPolicy)
    requires Terms(tokens, policy).Some?
    ensures var terms := Terms(tokens, policy).value;
            && |terms| == |tokens|
            && (forall i, j :: 0 <= i < j < |terms| ==> terms[i].name != terms[j].name)
            && (forall i :: 0 <= i < |terms| ==> terms[i].name in policy.sorts && terms[i].column.None?)
    decreases |tokens|
  {
    if tokens != [] {
      TermsAreDistinct(tokens[..|tokens| - 1], policy);
    }
  }

  /** A requested sort always ends up with distinct names of the policy, the tie breaker among its
      columns. */
  lemma SortIsEffective(raw: string, policy: QueryPolicy)
    requires ParseSort(raw, policy).Some?
    ensures var sorts := ParseSort(raw, policy).value;
            && sorts != [] && Normalize(sorts) == sorts && HasTie(sorts, policy)
            && (forall i, j :: 0 <= i < j < |sorts| ==> sorts[i].name != sorts[j].name)
            && (forall i :: 0 <= i < |sorts| ==> sorts[i].name in policy.sorts || sorts[i].name == policy.tieName)
  {
    var terms := Terms(SplitComma(raw), policy).value;
    TermsAreDistinct(SplitComma(raw), policy);
    assert Normalize(terms) == terms;
    var sorts := ParseSort(raw, policy).value;
    if !HasTie(terms, policy) {
      assert forall i :: 0 <= i < |terms| ==> !IsTie(terms[i], policy);
      assert IsTie(sorts[|terms|], policy);
    }
  }

  // ---- Writing a sort parameter ----

  /** Allowed names, each once, that a parameter can spell. */
  predicate Spellable(terms: seq<SortTerm>, policy: QueryPolicy) {
    && (forall i :: 0 <= i < |terms| ==>
          && terms[i].name in policy.sorts && terms[i].name != "" && terms[i].name[0] != '-' && ',' !in terms[i].name
          && terms[i].column.None?)
    && (forall i, j :: 0 <= i < j < |terms| ==> terms[i].name != terms[j].name)
  }

  lemma TokenSigns(term: SortTerm)
    requires term.name != "" && term.name[0] != '-' && ',' !in term.name && term.column.None?
    ensures Token(Sign(term)) == term && ',' !in Sign(term)
  {
    assert ("-" + term.name)[1..] == term.name;
  }

  lemma {:induction false} TermsRead(terms: seq<SortTerm>, policy: QueryPolicy)
    requires Spellable(terms, policy)
    ensures Terms(Signature(terms), policy) == Some(terms)
    decreases |terms|
  {
    if terms != [] {
      var init, term := terms[..|terms| - 1], terms[|terms| - 1];
      TermsRead(init, policy);
      TokenSigns(term);
      assert Signature(terms)[..|terms| - 1] == Signature(init);
      assert terms == init + [term];
    }
  }

  /** Writing any list of sort terms as a `sort` parameter and parsing it gives them back, in order and
      with their directions, completed by the tie breaker. */
  lemma SortReads(terms: seq<SortTerm>, policy: QueryPolicy)
    requires terms != [] && Spellable(terms, policy)
    ensures ParseSort(JoinComma(Signature(terms)), policy) == Some(AppendTieBreaker(terms, policy))
  {
    forall i | 0 <= i < |terms| ensures ',' !in Signature(terms)[i] { TokenSigns(terms[i]); }
    SplitJoined(Signature(terms));
    TermsRead(terms, policy);
  }
}
