/** Sort terms, the tie breaker that makes every effective sort total, and the columns they
    resolve to. */
module SortTerms {
  import opened Wrappers

  type Column = string

  /** `column` is the explicit override a policy may put on a term. */
  datatype SortTerm = SortTerm(name: string, descending: bool, column: Option<Column>)

  /** What the keyset gate asks of a mapped column. */
  datatype ColumnType = ColumnType(nullable: bool, representable: bool)

  const SORTABLE := ColumnType(false, true)

  datatype QueryPolicy = QueryPolicy(
    sorts: map<string, Column>,
    defaultSort: seq<SortTerm>,
    tieName: string,
    tieDescending: bool,
    tieColumn: Column,
    columnTypes: map<Column, ColumnType>)

  /** One ORDER BY entry. */
  datatype OrderTerm = OrderTerm(column: Column, descending: bool)

  function Lookup(policy: QueryPolicy, name: string): Option<Column> {
    if name in policy.sorts then Some(policy.sorts[name]) else None
  }

  function Plain(term: SortTerm): SortTerm {
    SortTerm(term.name, term.descending, None)
  }

  function Normalize(terms: seq<SortTerm>): seq<SortTerm> {
    seq(|terms|, i requires 0 <= i < |terms| => Plain(terms[i]))
  }

  /** The term already names the tie breaker, or its column is the tie breaker's. */
  predicate IsTie(term: SortTerm, policy: QueryPolicy) {
    var column := if term.column.Some? then term.column else Lookup(policy, term.name);
    term.name == policy.tieName || column == Some(policy.tieColumn)
  }

  predicate HasTie(terms: seq<SortTerm>, policy: QueryPolicy) {
    exists i :: 0 <= i < |terms| && IsTie(terms[i], policy)
  }

  function AppendTieBreaker(terms: seq<SortTerm>, policy: QueryPolicy): seq<SortTerm> {
    if HasTie(terms, policy) then Normalize(terms)
    else Normalize(terms) + [SortTerm(policy.tieName, policy.tieDescending, None)]
  }

  function ResolveSortColumn(term: SortTerm, policy: QueryPolicy): Option<Column> {
    if term.name == policy.tieName then Some(policy.tieColumn) else Lookup(policy, term.name)
  }

  predicate Resolvable(terms: seq<SortTerm>, policy: QueryPolicy) {
    forall i :: 0 <= i < |terms| ==> ResolveSortColumn(terms[i], policy).Some?
  }

  /** The ORDER BY list for terms that all resolve; None is the INVALID_SORT error. */
  function ResolveAll(terms: seq<SortTerm>, policy: QueryPolicy): (r: Option<seq<OrderTerm>>)
    ensures r.Some? ==> |r.value| == |terms|
  {
    if Resolvable(terms, policy) then
      Some(seq(|terms|, i requires 0 <= i < |terms| =>
        OrderTerm(ResolveSortColumn(terms[i], policy).value, terms[i].descending)))
    else None
  }

  function ApplySort(terms: seq<SortTerm>, policy: QueryPolicy): Option<seq<OrderTerm>> {
    ResolveAll(AppendTieBreaker(if terms == [] then policy.defaultSort else terms, policy), policy)
  }

  predicate Addressable(order: seq<OrderTerm>, policy: QueryPolicy) {
    forall i :: 0 <= i < |order| ==>
      && order[i].column in policy.columnTypes
      && !policy.columnTypes[order[i].column].nullable
      && policy.columnTypes[order[i].column].representable
  }

  /** Every term resolves to a NOT NULL column whose type a cursor can carry; None is the
      INVALID_PAGE error. */
  function KeysetColumns(terms: seq<SortTerm>, policy: QueryPolicy): Option<seq<OrderTerm>> {
    var order := ResolveAll(terms, policy);
    if terms == [] || order.None? || !Addressable(order.value, policy) then None else order
  }

  function FlipTerm(term: SortTerm): SortTerm {
    SortTerm(term.name, !term.descending, term.column)
  }

  function KeysetSorts(terms: seq<SortTerm>, before: bool): seq<SortTerm> {
    if before then seq(|terms|, i requires 0 <= i < |terms| => FlipTerm(terms[i])) else terms
  }

  function Flip(order: seq<OrderTerm>): seq<OrderTerm> {
    seq(|order|, i requires 0 <= i < |order| => OrderTerm(order[i].column, !order[i].descending))
  }

  /** An override to the tie column on a default-sort term is also visible without it. */
  predicate OverridesAgree(terms: seq<SortTerm>, policy: QueryPolicy) {
    HasTie(terms, policy) ==> HasTie(Normalize(terms), policy)
  }

  /** Appending the tie breaker twice is appending it once exactly when no tie was recognised
      through an override that normalising drops. */
  lemma AppendIdempotent(terms: seq<SortTerm>, policy: QueryPolicy)
    ensures AppendTieBreaker(AppendTieBreaker(terms, policy), policy) == AppendTieBreaker(terms, policy)
            <==> OverridesAgree(terms, policy)
  {
    var once := AppendTieBreaker(terms, policy);
    assert Normalize(once) == once;
    if !HasTie(terms, policy) {
      assert IsTie(once[|terms|], policy);
    }
  }

  /** The override a policy can carry really does break the second append: here the list endpoint
      would order by a tie breaker its cursors know nothing about. */
  lemma AppendNotIdempotent() returns (terms: seq<SortTerm>, policy: QueryPolicy)
    ensures |terms| == 1 && terms[0].name in policy.sorts
    ensures AppendTieBreaker(AppendTieBreaker(terms, policy), policy) != AppendTieBreaker(terms, policy)
  {
    terms := [SortTerm("key", false, Some("id"))];
    policy := QueryPolicy(map["key" := "rank"], terms, "id", false, "id", map[]);
    assert IsTie(terms[0], policy);
    var once := AppendTieBreaker(terms, policy);
    assert once == [SortTerm("key", false, None)];
    assert !IsTie(once[0], policy);
  }

  /** A normalised list that already names the tie breaker is returned unchanged. */
  lemma AppendKeeps(terms: seq<SortTerm>, policy: QueryPolicy)
    requires Normalize(terms) == terms && HasTie(terms, policy)
    ensures AppendTieBreaker(terms, policy) == terms
  {}

  /** The effective sort names the unique column without any override. */
  lemma EffectiveHasTie(terms: seq<SortTerm>, policy: QueryPolicy) returns (i: nat)
    requires OverridesAgree(terms, policy)
    ensures var effective := AppendTieBreaker(terms, policy);
            && i < |effective| && Normalize(effective) == effective && IsTie(effective[i], policy)
            && ResolveSortColumn(effective[i], policy) == Some(policy.tieColumn)
  {
    var effective := AppendTieBreaker(terms, policy);
    if HasTie(terms, policy) {
      i :| 0 <= i < |effective| && IsTie(effective[i], policy);
    } else {
      i := |terms|;
    }
  }

  /** What a policy must satisfy to be constructed: default-sort names are allowed, or the tie breaker's. */
  predicate Constructible(policy: QueryPolicy) {
    Resolvable(policy.defaultSort, policy)
  }

  /** An allowed sort always executes. */
  lemma AllowedApplies(terms: seq<SortTerm>, policy: QueryPolicy)
    requires Resolvable(terms, policy)
    ensures ApplySort(AppendTieBreaker(terms, policy), policy).Some?
  {
    AppendResolves(terms, policy);
    AppendResolves(AppendTieBreaker(terms, policy), policy);
    hide AppendTieBreaker, Resolvable;
    EffectiveIsSome(terms, policy);
  }

  lemma AppendResolves(terms: seq<SortTerm>, policy: QueryPolicy)
    requires Resolvable(terms, policy)
    ensures Resolvable(AppendTieBreaker(terms, policy), policy)
  {}

  lemma EffectiveIsSome(terms: seq<SortTerm>, policy: QueryPolicy)
    ensures AppendTieBreaker(terms, policy) != []
  {}

  /** Inverting every direction resolves to the same columns, inverted. */
  lemma ResolveFlip(terms: seq<SortTerm>, policy: QueryPolicy)
    ensures var order := ResolveAll(terms, policy);
            ResolveAll(KeysetSorts(terms, true), policy) == if order.Some? then Some(Flip(order.value)) else None
  {
    var flipped := KeysetSorts(terms, true);
    assert forall j ::
      0 <= j < |terms| ==> ResolveSortColumn(flipped[j], policy) == ResolveSortColumn(terms[j], policy);
    var order := ResolveAll(terms, policy);
    var inverse := ResolveAll(flipped, policy);
    if order.Some? {
      assert inverse.value == Flip(order.value);
    }
  }

  /** Under that condition the effective sort contains the unique column... */
  lemma OrderIsUnique(terms: seq<SortTerm>, policy: QueryPolicy)
    requires OverridesAgree(terms, policy)
    requires KeysetColumns(AppendTieBreaker(terms, policy), policy).Some?
    ensures var order := KeysetColumns(AppendTieBreaker(terms, policy), policy).value;
            exists i :: 0 <= i < |order| && order[i].column == policy.tieColumn
  {
    var effective := AppendTieBreaker(terms, policy);
    var i := EffectiveHasTie(terms, policy);
    assert KeysetColumns(effective, policy).value[i].column == policy.tieColumn;
  }

  /** ...the executed ORDER BY is exactly the keyset's columns, and a backwards page executes them
      all inverted. */
  lemma EffectiveOrder(terms: seq<SortTerm>, policy: QueryPolicy, before: bool)
    requires OverridesAgree(terms, policy)
    requires KeysetColumns(AppendTieBreaker(terms, policy), policy).Some?
    ensures var order := KeysetColumns(AppendTieBreaker(terms, policy), policy).value;
            ApplySort(KeysetSorts(AppendTieBreaker(terms, policy), before), policy)
            == Some(if before then Flip(order) else order)
  {
    var effective := AppendTieBreaker(terms, policy);
    var executed := KeysetSorts(effective, before);
    var i := EffectiveHasTie(terms, policy);
    assert Normalize(executed) == executed;
    assert executed[i].name == effective[i].name && executed[i].column == effective[i].column;
    assert IsTie(executed[i], policy);
    AppendKeeps(executed, policy);
    ResolveFlip(effective, policy);
  }
}
