/** What an accepted request contains, and why a request is refused, in terms of its parameters alone. */
module RequestParameters {
  import opened Wrappers
  import opened Sorting
  import opened SortTerms
  import opened CursorCodec
  import opened Strings
  import opened Filters
  import opened QueryParams
  import Decimal

  // ---- Sort ----

  /** A token's direction and name. */
  predicate Descends(token: string) {
    token != "" && token[0] == '-'
  }

  function NameOf(token: string): string {
    if Descends(token) then token[1..] else token
  }

  predicate Sortable(tokens: seq<string>, policy: QueryPolicy) {
    && (forall i :: 0 <= i < |tokens| ==> NameOf(tokens[i]) != "" && NameOf(tokens[i]) in policy.sorts)
    && (forall i, j :: 0 <= i < j < |tokens| ==> NameOf(tokens[i]) != NameOf(tokens[j]))
  }

  /** A sort by the tie breaker's name or column needs no tie breaker. */
  predicate ReachesTie(tokens: seq<string>, policy: QueryPolicy) {
    exists i :: 0 <= i < |tokens| && (NameOf(tokens[i]) == policy.tieName
                                      || (NameOf(tokens[i]) in policy.sorts
                                          && policy.sorts[NameOf(tokens[i])] == policy.tieColumn))
  }

  function TokenTerms(tokens: seq<string>): seq<SortTerm> {
    seq(|tokens|, i requires 0 <= i < |tokens| => SortTerm(NameOf(tokens[i]), Descends(tokens[i]), None))
  }

  lemma {:induction false} TermsAre(tokens: seq<string>, policy: QueryPolicy)
    ensures Terms(tokens, policy) == if Sortable(tokens, policy) then Some(TokenTerms(tokens)) else None
    decreases |tokens|
  {
    if tokens == [] {
      assert TokenTerms(tokens) == [];
    } else {
      var init, last := tokens[..|tokens| - 1], tokens[|tokens| - 1];
      TermsAre(init, policy);
      SortableNext(init, last, policy);
      TokenTermsNext(init, last);
      assert tokens == init + [last] && Token(last).name == NameOf(last);
      hide Sortable, NamedIn, TokenTerms, Token, NameOf;
    }
  }

  lemma TokenTermsNext(tokens: seq<string>, token: string)
    ensures TokenTerms(tokens + [token]) == TokenTerms(tokens) + [Token(token)]
  {}

  lemma NamedIs(tokens: seq<string>, name: string)
    ensures NamedIn(TokenTerms(tokens), name) <==> exists i :: 0 <= i < |tokens| && NameOf(tokens[i]) == name
  {
    var terms := TokenTerms(tokens);
    if i :| 0 <= i < |tokens| && NameOf(tokens[i]) == name { assert terms[i].name == name; }
    if i :| 0 <= i < |terms| && terms[i].name == name { assert NameOf(tokens[i]) == name; }
  }

  lemma SortableNext(tokens: seq<string>, token: string, policy: QueryPolicy)
    ensures Sortable(tokens + [token], policy)
            <==> Sortable(tokens, policy) && NameOf(token) != "" && NameOf(token) in policy.sorts
                 && !NamedIn(TokenTerms(tokens), NameOf(token))
  {
    var all := tokens + [token];
    if Sortable(all, policy) {
      assert all[|tokens|] == token;
      forall i | 0 <= i < |tokens| ensures tokens[i] == all[i] {}
    }
    NamedIs(tokens, NameOf(token));
  }

  lemma TieIsReached(tokens: seq<string>, policy: QueryPolicy)
    ensures HasTie(TokenTerms(tokens), policy) <==> ReachesTie(tokens, policy)
    ensures Normalize(TokenTerms(tokens)) == TokenTerms(tokens)
  {
    var terms := TokenTerms(tokens);
    if i :| 0 <= i < |terms| && IsTie(terms[i], policy) { assert terms[i].name == NameOf(tokens[i]); }
    if ReachesTie(tokens, policy) {
      var i :| 0 <= i < |tokens| && (NameOf(tokens[i]) == policy.tieName
                                     || (NameOf(tokens[i]) in policy.sorts
                                         && policy.sorts[NameOf(tokens[i])] == policy.tieColumn));
      assert IsTie(terms[i], policy);
    }
  }

  /** A `sort` text is accepted if and only if its tokens name allowed fields, each once; it then sorts by
      them in order, descending where a dash comes first, and by the tie breaker unless they reach it. */
  lemma SortIs(raw: string, policy: QueryPolicy)
    ensures
      var tokens := SplitComma(raw);
      ParseSort(raw, policy)
      == if !Sortable(tokens, policy) then None
         else Some(TokenTerms(tokens) + if ReachesTie(tokens, policy) then []
                                        else [SortTerm(policy.tieName, policy.tieDescending, None)])
  {
    var tokens := SplitComma(raw);
    TermsAre(tokens, policy);
    TieIsReached(tokens, policy);
    hide Terms, Sortable, ReachesTie, HasTie, SplitComma, TokenTerms, Normalize;
    assert TokenTerms(tokens) + [] == TokenTerms(tokens);
  }

  /** The column a name sorts by: the tie breaker's under its own name, else the allowed field's. */
  function ColumnOf(name: string, policy: QueryPolicy): Column
    requires name == policy.tieName || name in policy.sorts
  {
    if name == policy.tieName then policy.tieColumn else policy.sorts[name]
  }

  lemma ExecutedColumns(sorts: seq<SortTerm>, policy: QueryPolicy)
    requires forall i :: 0 <= i < |sorts| ==> sorts[i].name in policy.sorts || sorts[i].name == policy.tieName
    ensures
      var order := ResolveAll(sorts, policy);
      order.Some? && forall i :: 0 <= i < |sorts| ==>
        order.value[i] == OrderTerm(ColumnOf(sorts[i].name, policy), sorts[i].descending)
  {}

  /** What the database is asked to order by for an accepted `sort` text: the column of each token's name, in
      the token's direction, and the tie breaker's unless they reach it. */
  lemma SortExecutes(raw: string, policy: QueryPolicy)
    requires ParseSort(raw, policy).Some?
    ensures
      var tokens, order := SplitComma(raw), ApplySort(ParseSort(raw, policy).value, policy);
      && order.Some? && |order.value| == |tokens| + (if ReachesTie(tokens, policy) then 0 else 1)
      && (forall i :: 0 <= i < |tokens| ==>
            && NameOf(tokens[i]) in policy.sorts
            && order.value[i] == OrderTerm(ColumnOf(NameOf(tokens[i]), policy), Descends(tokens[i])))
      && (!ReachesTie(tokens, policy) ==>
            order.value[|tokens|] == OrderTerm(policy.tieColumn, policy.tieDescending))
  {
    SortIs(raw, policy);
    SortIsEffective(raw, policy);
    var sorts, tokens := ParseSort(raw, policy).value, SplitComma(raw);
    AppendKeeps(sorts, policy);
    ExecutedColumns(sorts, policy);
    hide ParseSort, HasTie, ReachesTie, SplitComma, Normalize, AppendTieBreaker, ResolveAll;
    assert forall i :: 0 <= i < |tokens| ==> sorts[i] == TokenTerms(tokens)[i];
  }

  // ---- Include ----

  /** An `include` text is accepted if and only if it is empty or all its tokens are allowed; it then asks for
      each of them, the first time it is named. */
  lemma IncludeIs(raw: string, includes: set<string>)
    ensures ParseInclude(raw, includes).Some?
            <==> raw == "" || forall token :: token in SplitComma(raw) ==> token in includes
    ensures ParseInclude(raw, includes).Some? ==>
              ParseInclude(raw, includes).value == if raw == "" then [] else Distinct(SplitComma(raw))
  {
    hide Distinct, SplitComma;
    var tokens := SplitComma(raw);
    assert (exists i :: 0 <= i < |tokens| && tokens[i] !in includes)
           <==> exists token :: token in tokens && token !in includes;
  }

  lemma IncludeReads(tokens: seq<string>, includes: set<string>)
    requires tokens != [] && tokens != [""] && CommaFree(tokens)
    requires forall i, j :: 0 <= i < j < |tokens| ==> tokens[i] != tokens[j]
    requires forall token :: token in tokens ==> token in includes
    ensures ParseInclude(JoinComma(tokens), includes) == Some(tokens)
  {
    SplitJoined(tokens);
    assert SplitComma("") == [""];
    IncludeIs(JoinComma(tokens), includes);
    AlreadyDistinct(tokens);
  }

  lemma {:induction false} AlreadyDistinct(s: seq<string>)
    requires forall i, j :: 0 <= i < j < |s| ==> s[i] != s[j]
    ensures Distinct(s) == s
    decreases |s|
  {
    if s != [] {
      AlreadyDistinct(s[..|s| - 1]);
      assert s == s[..|s| - 1] + [s[|s| - 1]];
    }
  }

  // ---- Which parameters can be read ----

  predicate IsFilterName(name: string) {
    "filter" <= name
  }

  predicate IsCursorName(name: string) {
    name == "page[after]" || name == "page[before]"
  }

  /** The parameter is known and its text can be read. */
  predicate Readable(api: Api, item: Item) {
    var (name, raw) := item;
    if IsFilterName(name) then ParseFilter(name, raw, api.filters).Some?
    else if name == "sort" then ParseSort(raw, api.policy).Some?
    else if name == "include" then ParseInclude(raw, api.includes).Some?
    else if name == "page[number]" || name == "page[size]" then Decimal.PositiveInteger(raw).Some?
    else if name == "page[totals]" then raw == "true" || raw == "false"
    else IsCursorName(name)
  }

  /** The same parameter twice: a filter on the same field with the same operator, a second cursor, or any
      other name again. */
  predicate Repeats(api: Api, earlier: Item, later: Item) {
    if IsFilterName(later.0) then IsFilterName(earlier.0) && SameFilter(api, earlier, later)
    else if IsCursorName(later.0) then IsCursorName(earlier.0)
    else earlier.0 == later.0
  }

  predicate SameFilter(api: Api, earlier: Item, later: Item) {
    var a, b := ParseFilter(earlier.0, earlier.1, api.filters), ParseFilter(later.0, later.1, api.filters);
    a.Some? && b.Some? && a.value.name == b.value.name && a.value.operator == b.value.operator
  }

  /** The item is the reason for a refusal, if those before it are none. */
  predicate Bad(api: Api, items: seq<Item>, i: nat)
    requires i < |items|
  {
    !Readable(api, items[i]) || exists j :: 0 <= j < i && Repeats(api, items[j], items[i])
  }

  predicate AllGood(api: Api, items: seq<Item>) {
    forall i :: 0 <= i < |items| ==> !Bad(api, items, i)
  }

  // ---- What is gathered from them ----

  function IsFilterItem(): Item -> bool {
    (item: Item) => IsFilterName(item.0)
  }

  /** The filters are those of the filter parameters, in order. */
  ghost predicate FiltersAre(api: Api, items: seq<Item>, filters: seq<FilterClause>) {
    var given := Filter(IsFilterItem(), items);
    && |filters| == |given|
    && forall i :: 0 <= i < |given| ==> ParseFilter(given[i].0, given[i].1, api.filters) == Some(filters[i])
  }

  predicate Absent(items: seq<Item>, name: string) {
    forall i :: 0 <= i < |items| ==> items[i].0 != name
  }

  /** The value is the one the parameter of this name gives, if there is one. */
  ghost predicate Gives<T>(items: seq<Item>, name: string, value: Option<T>, reader: string -> Option<T>) {
    && (forall i :: 0 <= i < |items| && items[i].0 == name ==> value.Some? && value == reader(items[i].1))
    && (Absent(items, name) ==> value.None?)
  }

  function SortReader(api: Api): string -> Option<seq<SortTerm>> {
    (raw: string) => ParseSort(raw, api.policy)
  }

  function IncludeReader(api: Api): string -> Option<seq<string>> {
    (raw: string) => ParseInclude(raw, api.includes)
  }

  function NumberReader(): string -> Option<nat> {
    (raw: string) => Decimal.PositiveInteger(raw)
  }

  /** At most a hundred. */
  function SizeReader(): string -> Option<nat> {
    (raw: string) =>
      var size := Decimal.PositiveInteger(raw);
      if size.None? then None else Some(if size.value < 100 then size.value else 100)
  }

  function FlagReader(): string -> Option<bool> {
    (raw: string) => if raw == "true" then Some(true) else if raw == "false" then Some(false) else None
  }

  ghost predicate GivesCursor(items: seq<Item>, cursor: Option<(bool, string)>) {
    && (forall i :: 0 <= i < |items| && items[i].0 == "page[after]" ==> cursor == Some((false, items[i].1)))
    && (forall i :: 0 <= i < |items| && items[i].0 == "page[before]" ==> cursor == Some((true, items[i].1)))
    && (Absent(items, "page[after]") && Absent(items, "page[before]") ==> cursor.None?)
  }

  ghost predicate Gathered(api: Api, items: seq<Item>, read: Read) {
    && FiltersAre(api, items, read.filters)
    && Gives(items, "sort", read.sorts, SortReader(api))
    && Gives(items, "include", read.includes, IncludeReader(api))
    && Gives(items, "page[number]", read.number, NumberReader())
    && Gives(items, "page[size]", read.size, SizeReader())
    && Gives(items, "page[totals]", read.totals, FlagReader())
    && GivesCursor(items, read.cursor)
  }

  // ---- One more parameter ----

  lemma GivesOther<T>(items: seq<Item>, name: string, value: Option<T>, reader: string -> Option<T>, item: Item)
    requires Gives(items, name, value, reader) && item.0 != name
    ensures Gives(items + [item], name, value, reader)
  {
    var all := items + [item];
    assert all[|items|] == item && forall i :: 0 <= i < |items| ==> all[i] == items[i];
  }

  lemma GivesThis<T>(items: seq<Item>, name: string, reader: string -> Option<T>, item: Item)
    requires Absent(items, name) && item.0 == name && reader(item.1).Some?
    ensures Gives(items + [item], name, reader(item.1), reader)
  {
    var all := items + [item];
    assert all[|items|] == item && forall i :: 0 <= i < |items| ==> all[i] == items[i];
  }

  lemma CursorOther(items: seq<Item>, cursor: Option<(bool, string)>, item: Item)
    requires GivesCursor(items, cursor) && !IsCursorName(item.0)
    ensures GivesCursor(items + [item], cursor)
  {
    var all := items + [item];
    assert all[|items|] == item && forall i :: 0 <= i < |items| ==> all[i] == items[i];
  }

  lemma CursorThis(items: seq<Item>, item: Item)
    requires Absent(items, "page[after]") && Absent(items, "page[before]") && IsCursorName(item.0)
    ensures GivesCursor(items + [item], Some((item.0 == "page[before]", item.1)))
  {
    var all := items + [item];
    assert all[|items|] == item && forall i :: 0 <= i < |items| ==> all[i] == items[i];
    assert "page[after]"[5] == 'a' && "page[before]"[5] == 'b';
  }

  lemma FiltersOther(api: Api, items: seq<Item>, filters: seq<FilterClause>, item: Item)
    requires FiltersAre(api, items, filters) && !IsFilterName(item.0)
    ensures FiltersAre(api, items + [item], filters)
  {
    FilterSnoc(IsFilterItem(), items, item);
  }

  lemma FiltersThis(api: Api, items: seq<Item>, filters: seq<FilterClause>, item: Item, clause: FilterClause)
    requires FiltersAre(api, items, filters) && IsFilterName(item.0)
    requires ParseFilter(item.0, item.1, api.filters) == Some(clause)
    ensures FiltersAre(api, items + [item], filters + [clause])
  {
    FilterSnoc(IsFilterItem(), items, item);
  }

  /** A filter is repeated among the clauses exactly when its parameter is. */
  lemma FilteredIs(api: Api, items: seq<Item>, filters: seq<FilterClause>, item: Item, clause: FilterClause)
    requires FiltersAre(api, items, filters) && IsFilterName(item.0)
    requires ParseFilter(item.0, item.1, api.filters) == Some(clause)
    ensures Filtered(filters, clause) <==> exists j :: 0 <= j < |items| && Repeats(api, items[j], item)
  {
    hide ParseFilter;
    var given := Filter(IsFilterItem(), items);
    FilterMembers(IsFilterItem(), items);
    if Filtered(filters, clause) {
      var i :| 0 <= i < |filters| && filters[i].name == clause.name && filters[i].operator == clause.operator;
      assert given[i] in given && given[i] in items;
      var j :| 0 <= j < |items| && items[j] == given[i];
      assert Repeats(api, items[j], item);
    }
    if j :| 0 <= j < |items| && Repeats(api, items[j], item) {
      assert items[j] in items && items[j] in given;
      var i :| 0 <= i < |given| && given[i] == items[j];
      assert filters[i].name == clause.name;
    }
  }

  /** Everything but what the item itself gives is unchanged. */
  lemma OthersStay(api: Api, items: seq<Item>, read: Read, item: Item)
    requires Gathered(api, items, read)
    ensures var all := items + [item];
            && (!IsFilterName(item.0) ==> FiltersAre(api, all, read.filters))
            && (item.0 != "sort" ==> Gives(all, "sort", read.sorts, SortReader(api)))
            && (item.0 != "include" ==> Gives(all, "include", read.includes, IncludeReader(api)))
            && (item.0 != "page[number]" ==> Gives(all, "page[number]", read.number, NumberReader()))
            && (item.0 != "page[size]" ==> Gives(all, "page[size]", read.size, SizeReader()))
            && (item.0 != "page[totals]" ==> Gives(all, "page[totals]", read.totals, FlagReader()))
            && (!IsCursorName(item.0) ==> GivesCursor(all, read.cursor))
  {
    hide Gives, FiltersAre, GivesCursor, IsCursorName, IsFilterName;
    if !IsFilterName(item.0) { FiltersOther(api, items, read.filters, item); }
    if item.0 != "sort" { GivesOther(items, "sort", read.sorts, SortReader(api), item); }
    if item.0 != "include" { GivesOther(items, "include", read.includes, IncludeReader(api), item); }
    if item.0 != "page[number]" { GivesOther(items, "page[number]", read.number, NumberReader(), item); }
    if item.0 != "page[size]" { GivesOther(items, "page[size]", read.size, SizeReader(), item); }
    if item.0 != "page[totals]" { GivesOther(items, "page[totals]", read.totals, FlagReader(), item); }
    if !IsCursorName(item.0) { CursorOther(items, read.cursor, item); }
  }

  /** The code a refusal carries goes by how the name begins. */
  predicate CodeFor(error: Error, name: string) {
    && ("filter" <= name ==> error == InvalidFilter)
    && ("sort" <= name ==> error == InvalidSort)
    && ("include" <= name ==> error == InvalidInclude)
    && ("page" <= name ==> error == InvalidPage)
    && (!("filter" <= name) && !("sort" <= name) && !("include" <= name) && !("page" <= name) ==>
          error == InvalidQueryParameter)
  }

  /** Reading one more parameter: refused exactly when it is bad, else what it gives is added. */
  ghost predicate ReadsOn(api: Api, items: seq<Item>, item: Item, next: Result<Read>, bad: bool) {
    && (next.Err? <==> bad)
    && (next.Err? ==> next.parameter == item.0 && CodeFor(next.error, item.0))
    && (next.Ok? ==> Gathered(api, items + [item], next.value))
  }

  ghost predicate Repeated(api: Api, items: seq<Item>, item: Item) {
    exists j :: 0 <= j < |items| && Repeats(api, items[j], item)
  }

  lemma BadIs(api: Api, items: seq<Item>, item: Item)
    ensures Bad(api, items + [item], |items|) <==> !Readable(api, item) || Repeated(api, items, item)
  {
    hide Readable, Repeats;
    var all := items + [item];
    assert all[|items|] == item && forall j :: 0 <= j < |items| ==> all[j] == items[j];
  }

  /** The kinds of names begin differently. */
  lemma NamesApart(name: string)
    ensures "filter" <= name ==>
            name != "" && name[0] == 'f' && !("sort" <= name) && !("include" <= name) && !("page" <= name)
    ensures "sort" <= name ==> name != "" && name[0] == 's' && !("include" <= name) && !("page" <= name)
    ensures "include" <= name ==> name != "" && name[0] == 'i' && !("page" <= name)
    ensures "page" <= name ==> name != "" && name[0] == 'p'
    ensures name == "page[number]" || name == "page[size]" || name == "page[totals]" || IsCursorName(name) ==>
            "page" <= name
    ensures !IsCursorName("page[number]") && !IsCursorName("page[size]") && !IsCursorName("page[totals]")
    ensures "page[number]" != "page[size]" && "page[number]" != "page[totals]" && "page[size]" != "page[totals]"
  {
    assert "filter"[0] == 'f' && "sort"[0] == 's' && "include"[0] == 'i' && "page"[0] == 'p';
    assert "page[size]"[5] == 's' && "page[totals]"[5] == 't' && "page[after]"[5] == 'a' && "page[before]"[5] == 'b'
        && "page[number]"[5] == 'n';
  }

  lemma ReadsFilter(api: Api, items: seq<Item>, read: Read, item: Item)
    requires Gathered(api, items, read) && IsFilterName(item.0)
    ensures ReadsOn(api, items, item, Next(api, read, item), !Readable(api, item) || Repeated(api, items, item))
  {
    NamesApart(item.0);
    OthersStay(api, items, read, item);
    var clause := ParseFilter(item.0, item.1, api.filters);
    if clause.Some? {
      FilteredIs(api, items, read.filters, item, clause.value);
      FiltersThis(api, items, read.filters, item, clause.value);
    }
    hide Gives, FiltersAre, GivesCursor, ParseFilter, Filtered, Repeats;
  }

  /** A parameter that may come once. */
  lemma RepeatedIs(api: Api, items: seq<Item>, item: Item)
    requires !IsFilterName(item.0) && !IsCursorName(item.0)
    ensures Repeated(api, items, item) <==> !Absent(items, item.0)
  {
    if j :| 0 <= j < |items| && items[j].0 == item.0 { assert Repeats(api, items[j], item); }
  }

  lemma GivenIs<T>(items: seq<Item>, name: string, value: Option<T>, reader: string -> Option<T>)
    requires Gives(items, name, value, reader)
    ensures value.None? <==> Absent(items, name)
  {}

  lemma ReadsSort(api: Api, items: seq<Item>, read: Read, item: Item)
    requires Gathered(api, items, read) && item.0 == "sort"
    ensures ReadsOn(api, items, item, Next(api, read, item), !Readable(api, item) || Repeated(api, items, item))
  {
    NamesApart(item.0);
    OthersStay(api, items, read, item);
    RepeatedIs(api, items, item);
    GivenIs(items, "sort", read.sorts, SortReader(api));
    if Absent(items, "sort") && ParseSort(item.1, api.policy).Some? { GivesThis(items, "sort", SortReader(api), item); }
    hide Gives, FiltersAre, GivesCursor, ParseSort, Repeated, Absent;
  }

  lemma ReadsInclude(api: Api, items: seq<Item>, read: Read, item: Item)
    requires Gathered(api, items, read) && item.0 == "include"
    ensures ReadsOn(api, items, item, Next(api, read, item), !Readable(api, item) || Repeated(api, items, item))
  {
    NamesApart(item.0);
    OthersStay(api, items, read, item);
    RepeatedIs(api, items, item);
    GivenIs(items, "include", read.includes, IncludeReader(api));
    if Absent(items, "include") && ParseInclude(item.1, api.includes).Some? {
      GivesThis(items, "include", IncludeReader(api), item);
    }
    hide Gives, FiltersAre, GivesCursor, ParseInclude, Repeated, Absent;
  }

  lemma ReadsNumber(api: Api, items: seq<Item>, read: Read, item: Item)
    requires Gathered(api, items, read) && item.0 == "page[number]"
    ensures ReadsOn(api, items, item, Next(api, read, item), !Readable(api, item) || Repeated(api, items, item))
  {
    NamesApart(item.0);
    OthersStay(api, items, read, item);
    RepeatedIs(api, items, item);
    GivenIs(items, "page[number]", read.number, NumberReader());
    if Absent(items, "page[number]") && Decimal.PositiveInteger(item.1).Some? {
      GivesThis(items, "page[number]", NumberReader(), item);
    }
    hide Gives, FiltersAre, GivesCursor, Decimal.PositiveInteger, Repeated, Absent;
  }

  lemma ReadsSize(api: Api, items: seq<Item>, read: Read, item: Item)
    requires Gathered(api, items, read) && item.0 == "page[size]"
    ensures ReadsOn(api, items, item, Next(api, read, item), !Readable(api, item) || Repeated(api, items, item))
  {
    NamesApart(item.0);
    OthersStay(api, items, read, item);
    RepeatedIs(api, items, item);
    GivenIs(items, "page[size]", read.size, SizeReader());
    if Absent(items, "page[size]") && Decimal.PositiveInteger(item.1).Some? {
      GivesThis(items, "page[size]", SizeReader(), item);
    }
    hide Gives, FiltersAre, GivesCursor, Decimal.PositiveInteger, Repeated, Absent;
  }

  lemma ReadsTotals(api: Api, items: seq<Item>, read: Read, item: Item)
    requires Gathered(api, items, read) && item.0 == "page[totals]"
    ensures ReadsOn(api, items, item, Next(api, read, item), !Readable(api, item) || Repeated(api, items, item))
  {
    NamesApart(item.0);
    OthersStay(api, items, read, item);
    RepeatedIs(api, items, item);
    GivenIs(items, "page[totals]", read.totals, FlagReader());
    if Absent(items, "page[totals]") && (item.1 == "true" || item.1 == "false") {
      assert "true"[0] == 't' && "false"[0] == 'f';
      GivesThis(items, "page[totals]", FlagReader(), item);
    }
    hide Gives, FiltersAre, GivesCursor, Repeated, Absent;
  }

  lemma RepeatedCursorIs(api: Api, items: seq<Item>, read: Read, item: Item)
    requires !IsFilterName(item.0) && IsCursorName(item.0) && GivesCursor(items, read.cursor)
    ensures Repeated(api, items, item) <==> read.cursor.Some?
    ensures read.cursor.None? ==> Absent(items, "page[after]") && Absent(items, "page[before]")
  {
    if j :| 0 <= j < |items| && IsCursorName(items[j].0) { assert Repeats(api, items[j], item); }
  }

  lemma ReadsCursor(api: Api, items: seq<Item>, read: Read, item: Item)
    requires Gathered(api, items, read) && IsCursorName(item.0)
    ensures ReadsOn(api, items, item, Next(api, read, item), !Readable(api, item) || Repeated(api, items, item))
  {
    NamesApart(item.0);
    OthersStay(api, items, read, item);
    RepeatedCursorIs(api, items, read, item);
    if read.cursor.None? { CursorThis(items, item); }
    hide Gives, FiltersAre, GivesCursor, Repeated, Absent;
  }

  lemma ReadsUnknown(api: Api, items: seq<Item>, read: Read, item: Item)
    requires !IsFilterName(item.0) && item.0 != "sort" && item.0 != "include" && item.0 != "page[number]"
    requires item.0 != "page[size]" && item.0 != "page[totals]" && !IsCursorName(item.0)
    ensures ReadsOn(api, items, item, Next(api, read, item), !Readable(api, item) || Repeated(api, items, item))
  {
    NamesApart(item.0);
    hide Gathered, Repeated;
  }

  lemma NextIs(api: Api, items: seq<Item>, read: Read, item: Item)
    requires Gathered(api, items, read)
    ensures ReadsOn(api, items, item, Next(api, read, item), Bad(api, items + [item], |items|))
  {
    hide Gathered, ReadsOn, Next, Readable, Repeated, Bad;
    BadIs(api, items, item);
    if IsFilterName(item.0) { ReadsFilter(api, items, read, item); }
    else if item.0 == "sort" { ReadsSort(api, items, read, item); }
    else if item.0 == "include" { ReadsInclude(api, items, read, item); }
    else if item.0 == "page[number]" { ReadsNumber(api, items, read, item); }
    else if item.0 == "page[size]" { ReadsSize(api, items, read, item); }
    else if item.0 == "page[totals]" { ReadsTotals(api, items, read, item); }
    else if IsCursorName(item.0) { ReadsCursor(api, items, read, item); }
    else { ReadsUnknown(api, items, read, item); }
  }

  // ---- All parameters ----

  lemma BadInPrefix(api: Api, items: seq<Item>, n: nat, i: nat)
    requires i < n <= |items|
    ensures Bad(api, items[..n], i) <==> Bad(api, items, i)
  {
    hide Readable, Repeats;
    assert items[..n][i] == items[i] && forall j :: 0 <= j < i ==> items[..n][j] == items[j];
  }

  lemma ReadLast(api: Api, items: seq<Item>, item: Item)
    ensures ReadAll(api, items + [item])
            == if ReadAll(api, items).Err? then ReadAll(api, items) else Next(api, ReadAll(api, items).value, item)
  {
    hide Next;
    assert (items + [item])[..|items|] == items;
  }

  lemma {:induction false} AllGathered(api: Api, items: seq<Item>)
    requires AllGood(api, items)
    ensures ReadAll(api, items).Ok? && Gathered(api, items, ReadAll(api, items).value)
    decreases |items|
  {
    if items == [] {
      NothingGathered(api);
    } else {
      hide Bad, Next, Gathered, ReadAll;
      var n := |items| - 1;
      var init, last := items[..n], items[n];
      forall i | 0 <= i < n ensures !Bad(api, init, i) { BadInPrefix(api, items, n, i); }
      AllGathered(api, init);
      assert init + [last] == items;
      ReadLast(api, init, last);
      NextIs(api, init, ReadAll(api, init).value, last);
    }
  }

  lemma NothingGathered(api: Api)
    ensures Gathered(api, [], NOTHING)
  {}

  lemma FirstBadFails(api: Api, items: seq<Item>, i: nat)
    requires i < |items| && Bad(api, items, i) && forall j :: 0 <= j < i ==> !Bad(api, items, j)
    ensures ReadAll(api, items).Err? && ReadAll(api, items).parameter == items[i].0
    ensures CodeFor(ReadAll(api, items).error, items[i].0)
  {
    hide Bad, Next, Gathered, CodeFor, ReadAll;
    forall j | 0 <= j < i ensures !Bad(api, items[..i], j) { BadInPrefix(api, items, i, j); }
    AllGathered(api, items[..i]);
    BadInPrefix(api, items, i + 1, i);
    assert items[..i] + [items[i]] == items[..i + 1];
    ReadLast(api, items[..i], items[i]);
    NextIs(api, items[..i], ReadAll(api, items[..i]).value, items[i]);
    ReadFails(api, items, i + 1);
  }

  /** The first parameter that is unknown, unreadable or repeated is what the request is refused for. */
  lemma RefusedFor(api: Api, items: seq<Item>, i: nat)
    requires i < |items| && Bad(api, items, i) && forall j :: 0 <= j < i ==> !Bad(api, items, j)
    ensures Query(api, items).Err? && Query(api, items).parameter == items[i].0
    ensures CodeFor(Query(api, items).error, items[i].0)
  {
    FirstBadFails(api, items, i);
    hide ReadAll, Bad, Checked;
  }

  // ---- What an accepted request asks for ----

  /** The value is the one the parameter of this name gives, or the default. */
  ghost predicate GivesOr<T>(items: seq<Item>, name: string, value: T, reader: string -> Option<T>, default: T) {
    && (forall i :: 0 <= i < |items| && items[i].0 == name ==> reader(items[i].1) == Some(value))
    && (Absent(items, name) ==> value == default)
  }

  ghost predicate CursorIs(api: Api, items: seq<Item>, query: QuerySpec) {
    && (forall i :: 0 <= i < |items| && IsCursorName(items[i].0) ==>
          var values := Decoded(items[i].1, query.sorts, api.policy, api.codec);
          && values.Some?
          && query.page.cursor == Some(PageCursor(items[i].1, items[i].0 == "page[before]", values.value)))
    && (Absent(items, "page[after]") && Absent(items, "page[before]") ==> query.page.cursor.None?)
  }

  /** The request says what the parameters say, and the defaults where they say nothing. */
  ghost predicate Says(api: Api, items: seq<Item>, query: QuerySpec) {
    && FiltersAre(api, items, query.filters)
    && GivesOr(items, "sort", query.sorts, SortReader(api), AppendTieBreaker(api.policy.defaultSort, api.policy))
    && GivesOr(items, "include", query.includes, IncludeReader(api), [])
    && GivesOr(items, "page[number]", query.page.number, NumberReader(), 1)
    && GivesOr(items, "page[size]", query.page.size, SizeReader(), 20)
    && GivesOr(items, "page[totals]", query.page.totals, FlagReader(), false)
    && CursorIs(api, items, query)
  }

  lemma GivenOr<T>(items: seq<Item>, name: string, value: Option<T>, reader: string -> Option<T>, default: T)
    requires Gives(items, name, value, reader)
    ensures GivesOr(items, name, if value.Some? then value.value else default, reader, default)
  {
    if value.None? {
      GivenIs(items, name, value, reader);
    } else if Absent(items, name) {
      GivenIs(items, name, value, reader);
    }
  }

  /** There is only one value to give. */
  lemma GivenOnce<T>(items: seq<Item>, name: string, a: T, b: T, reader: string -> Option<T>, default: T)
    requires GivesOr(items, name, a, reader, default) && GivesOr(items, name, b, reader, default)
    ensures a == b
  {
    if !Absent(items, name) {
      var i :| 0 <= i < |items| && items[i].0 == name;
    }
  }

  ghost predicate HasCursor(items: seq<Item>) {
    !Absent(items, "page[after]") || !Absent(items, "page[before]")
  }

  lemma SortsGiven(api: Api, items: seq<Item>, read: Read)
    requires Gives(items, "sort", read.sorts, SortReader(api))
    ensures GivesOr(items, "sort", EffectiveSorts(api, read), SortReader(api),
                    AppendTieBreaker(api.policy.defaultSort, api.policy))
  {
    GivenOr(items, "sort", read.sorts, SortReader(api), AppendTieBreaker(api.policy.defaultSort, api.policy));
    if read.sorts.Some? {
      GivenIs(items, "sort", read.sorts, SortReader(api));
      var i :| 0 <= i < |items| && items[i].0 == "sort";
      SortIsEffective(items[i].1, api.policy);
    }
  }

  lemma CursorGiven(items: seq<Item>, read: Read)
    requires GivesCursor(items, read.cursor)
    ensures read.cursor.Some? <==> HasCursor(items)
    ensures forall i :: 0 <= i < |items| && IsCursorName(items[i].0) ==>
              read.cursor == Some((items[i].0 == "page[before]", items[i].1))
  {
    assert "page[after]"[5] == 'a' && "page[before]"[5] == 'b';
    if HasCursor(items) { var i := CursorItem(items); }
  }

  lemma CursorItem(items: seq<Item>) returns (i: nat)
    requires HasCursor(items)
    ensures i < |items| && IsCursorName(items[i].0)
  {
    i :| 0 <= i < |items| && (items[i].0 == "page[after]" || items[i].0 == "page[before]");
  }

  /** What was read, as the numbers and sorts the checks use. */
  lemma ReadGives(api: Api, items: seq<Item>, read: Read)
    requires Gathered(api, items, read)
    ensures GivesOr(items, "page[number]", PageNumber(read), NumberReader(), 1)
    ensures GivesOr(items, "page[size]", PageSize(read), SizeReader(), 20)
    ensures GivesOr(items, "include", if read.includes.Some? then read.includes.value else [], IncludeReader(api), [])
    ensures GivesOr(items, "page[totals]", read.totals == Some(true), FlagReader(), false)
    ensures GivesOr(items, "sort", EffectiveSorts(api, read), SortReader(api),
                    AppendTieBreaker(api.policy.defaultSort, api.policy))
    ensures read.number.Some? <==> !Absent(items, "page[number]")
  {
    hide Gives, GivesOr, EffectiveSorts, FiltersAre, GivesCursor;
    GivenOr(items, "page[number]", read.number, NumberReader(), 1);
    GivenOr(items, "page[size]", read.size, SizeReader(), 20);
    GivenOr(items, "include", read.includes, IncludeReader(api), []);
    GivenOr(items, "page[totals]", read.totals, FlagReader(), false);
    assert (if read.totals.Some? then read.totals.value else false) == (read.totals == Some(true));
    GivenIs(items, "page[number]", read.number, NumberReader());
    SortsGiven(api, items, read);
  }

  /** Every accepted request has only good parameters and says what they say. */
  lemma AcceptedSays(api: Api, items: seq<Item>)
    requires Query(api, items).Ok?
    ensures AllGood(api, items) && Says(api, items, Query(api, items).value)
    ensures (Query(api, items).value.page.number - 1) * Query(api, items).value.page.size <= 9_007_199_254_740_991
    ensures HasCursor(items) ==> Absent(items, "page[number]")
  {
    NoneBad(api, items);
    AllGathered(api, items);
    var read := ReadAll(api, items).value;
    hide ReadAll, AllGood;
    SaysRead(api, items, read);
  }

  lemma NoneBad(api: Api, items: seq<Item>)
    requires Query(api, items).Ok?
    ensures AllGood(api, items)
  {
    hide Bad, ReadAll, Checked;
    if !AllGood(api, items) {
      var i: nat :| i < |items| && Bad(api, items, i);
      var first := FirstBad(api, items, i);
      FirstBadFails(api, items, first);
    }
  }

  lemma {:induction false} FirstBad(api: Api, items: seq<Item>, i: nat) returns (first: nat)
    requires i < |items| && Bad(api, items, i)
    ensures first < |items| && Bad(api, items, first) && forall j :: 0 <= j < first ==> !Bad(api, items, j)
  {
    hide Bad;
    first := 0;
    while !Bad(api, items, first)
      invariant first <= i && forall j :: 0 <= j < first ==> !Bad(api, items, j)
      decreases i - first
    {
      first := first + 1;
    }
  }

  /** The checks pass on what was read. */
  lemma CheckedIs(api: Api, read: Read)
    requires Checked(api, read).Ok?
    ensures
      var query := Checked(api, read).value;
      && query.filters == read.filters && query.sorts == EffectiveSorts(api, read)
      && query.includes == (if read.includes.Some? then read.includes.value else [])
      && query.page.number == PageNumber(read) && query.page.size == PageSize(read)
      && query.page.totals == (read.totals == Some(true))
      && (query.page.number - 1) * query.page.size <= 9_007_199_254_740_991
      && (read.cursor.Some? ==> read.number.None?)
      && (read.cursor.None? ==> query.page.cursor.None?)
      && (read.cursor.Some? ==>
            var (before, raw) := read.cursor.value;
            var values := Decoded(raw, query.sorts, api.policy, api.codec);
            values.Some? && query.page.cursor == Some(PageCursor(raw, before, values.value)))
  {
    hide EffectiveSorts, Decoded;
  }

  lemma SaysCursor(api: Api, items: seq<Item>, read: Read, query: QuerySpec)
    requires GivesCursor(items, read.cursor)
    requires read.cursor.None? ==> query.page.cursor.None?
    requires read.cursor.Some? ==>
               var (before, raw) := read.cursor.value;
               var values := Decoded(raw, query.sorts, api.policy, api.codec);
               values.Some? && query.page.cursor == Some(PageCursor(raw, before, values.value))
    ensures CursorIs(api, items, query)
  {
    CursorGiven(items, read);
    hide Decoded, GivesCursor;
    if read.cursor.None? { NoCursor(items); }
  }

  lemma SaysRead(api: Api, items: seq<Item>, read: Read)
    requires Gathered(api, items, read) && Checked(api, read).Ok?
    ensures Says(api, items, Checked(api, read).value)
    ensures (Checked(api, read).value.page.number - 1) * Checked(api, read).value.page.size <= 9_007_199_254_740_991
    ensures HasCursor(items) ==> Absent(items, "page[number]")
  {
    var query := Checked(api, read).value;
    ReadGives(api, items, read);
    CheckedIs(api, read);
    CursorGiven(items, read);
    SaysCursor(api, items, read, query);
    hide Gives, GivesOr, EffectiveSorts, FiltersAre, GivesCursor, HasCursor, Decoded, AppendTieBreaker, Checked;
    hide CursorIs;
    hide Absent;
  }

  lemma NoCursor(items: seq<Item>)
    requires !HasCursor(items)
    ensures forall i :: 0 <= i < |items| ==> !IsCursorName(items[i].0)
  {}

  /** When all parameters are good: too far out, or a page number beside a cursor, is refused for the number;
      a cursor that does not decode for itself; anything else is accepted. */
  lemma GoodIsAccepted(api: Api, items: seq<Item>, number: nat, size: nat, sorts: seq<SortTerm>)
    requires AllGood(api, items)
    requires GivesOr(items, "page[number]", number, NumberReader(), 1)
    requires GivesOr(items, "page[size]", size, SizeReader(), 20)
    requires GivesOr(items, "sort", sorts, SortReader(api), AppendTieBreaker(api.policy.defaultSort, api.policy))
    ensures number >= 1
    ensures
      var far := (number - 1) * size > 9_007_199_254_740_991 || (HasCursor(items) && !Absent(items, "page[number]"));
      && (far ==> Query(api, items) == Err(InvalidPage, "page[number]"))
      && (!far && !HasCursor(items) ==> Query(api, items).Ok?)
      && (!far ==> forall i :: 0 <= i < |items| && IsCursorName(items[i].0) ==>
            if Decoded(items[i].1, sorts, api.policy, api.codec).None? then
              Query(api, items) == Err(InvalidPage, items[i].0)
            else Query(api, items).Ok?)
  {
    AllGathered(api, items);
    var read := ReadAll(api, items).value;
    ReadGives(api, items, read);
    CursorGiven(items, read);
    GivenOnce(items, "page[number]", number, PageNumber(read), NumberReader(), 1);
    GivenOnce(items, "page[size]", size, PageSize(read), SizeReader(), 20);
    GivenOnce(items, "sort", sorts, EffectiveSorts(api, read), SortReader(api),
              AppendTieBreaker(api.policy.defaultSort, api.policy));
    NumberIsPositive(items, number);
    hide ReadAll, AllGood, Gathered, GivesOr, HasCursor, Absent, Decoded, EffectiveSorts, AppendTieBreaker;
  }

  lemma NumberIsPositive(items: seq<Item>, number: nat)
    requires GivesOr(items, "page[number]", number, NumberReader(), 1)
    ensures number >= 1
  {
    if !Absent(items, "page[number]") {
      var i :| 0 <= i < |items| && items[i].0 == "page[number]";
    }
  }
}
