/** The collection endpoint: one page of rows with its probe, its fold and its cursors. */
module Index {
  import opened Wrappers
  import opened Sorting
  import opened SortTerms
  import opened Keyset

  /** A decoded cursor; no values address the start (or, for `before`, the end). */
  datatype Cursor<V> = Cursor(before: bool, values: seq<V>)

  datatype PageSpec<V> = PageSpec(number: nat, size: nat, cursor: Option<Cursor<V>>)

  datatype Select<V> = Select(where: Option<Clause<V>>, orderBy: seq<OrderTerm>, offset: nat, limit: nat)

  datatype Page<V> = Page(models: seq<Row<V>>, hasMore: bool)

  datatype Listed<V> = InvalidSortError | InvalidPageError | Listed(page: Page<V>)

  function HoldsIn<V(==)>(lt: (V, V) -> bool, clause: Clause<V>): Row<V> -> bool {
    (row: Row<V>) => Holds(lt, clause, row)
  }

  /** The database: WHERE, ORDER BY, OFFSET, LIMIT over the scoped and filtered bag of rows. */
  function Execute<V(==)>(lt: (V, V) -> bool, select: Select<V>, bag: seq<Row<V>>): seq<Row<V>> {
    var kept := if select.where.Some? then Filter(HoldsIn(lt, select.where.value), bag) else bag;
    Take(Drop(Ordered(Before(lt, select.orderBy), kept), select.offset), select.limit)
  }

  /** The row's sort key as cursor values; None where the source mints no cursor. */
  function MintKey<V>(sorts: seq<SortTerm>, policy: QueryPolicy, row: Row<V>): Option<seq<V>> {
    var order := KeysetColumns(sorts, policy);
    if order.Some? && NoNulls(order.value, row) then Some(KeyValues(order.value, row)) else None
  }

  function KeyValues<V>(order: seq<OrderTerm>, row: Row<V>): (values: seq<V>)
    requires NoNulls(order, row)
    ensures |values| == |order|
    ensures Position(values) == Key(order, row)
  {
    seq(|order|, i requires 0 <= i < |order| => row[order[i].column])
  }

  function CursorAt<V>(sorts: seq<SortTerm>, policy: QueryPolicy, before: bool, row: Row<V>): Option<Cursor<V>> {
    var key := MintKey(sorts, policy, row);
    if key.Some? then Some(Cursor(before, key.value)) else None
  }

  /** The `next` link: forward pages follow the probe, backward pages know they came from
      somewhere as soon as they carry a position. */
  function NextCursor<V>(sorts: seq<SortTerm>, policy: QueryPolicy, cursor: Cursor<V>,
                         page: Page<V>): Option<Cursor<V>> {
    if page.models == [] then None
    else if (if cursor.before then cursor.values != [] else page.hasMore)
    then CursorAt(sorts, policy, false, page.models[|page.models| - 1]) else None
  }

  function PrevCursor<V>(sorts: seq<SortTerm>, policy: QueryPolicy, cursor: Cursor<V>,
                         page: Page<V>): Option<Cursor<V>> {
    if page.models == [] then None
    else if (if cursor.before then page.hasMore else cursor.values != [])
    then CursorAt(sorts, policy, true, page.models[0]) else None
  }

  function Offset(number: nat, size: nat): (offset: nat)
    requires number >= 1
  {
    Times(number - 1, size)
  }

  /** Multiplication by repeated addition. */
  function Times(a: nat, b: nat): nat {
    if a == 0 then 0 else Times(a - 1, b) + b
  }

  lemma {:induction false} TimesIsProduct(a: nat, b: nat)
    ensures Times(a, b) == a * b
  {
    if a > 0 { TimesIsProduct(a - 1, b); }
  }

  /** `max(1, ceil(total / size))`. */
  function LastPage(total: nat, size: nat): (last: nat)
    requires size >= 1
    ensures last >= 1
  {
    var pages := (total + size - 1) / size;
    if pages < 1 then 1 else pages
  }

  datatype Prepared<V> = Refused(asSort: bool) | Prepared(select: Select<V>)

  /** Puts the cursor condition, the order and the window together. */
  function Assemble<V>(restriction: Restriction<V>, order: Option<seq<OrderTerm>>, page: PageSpec<V>): Prepared<V>
    requires page.number >= 1
  {
    if restriction.InvalidPage? then Refused(false)
    else if order.None? then Refused(true)
    else
      Prepared(Select(if restriction.Restricted? then Some(restriction.where) else None, order.value,
                      if page.cursor.Some? then 0 else Offset(page.number, page.size), page.size + 1))
  }

  predicate Backwards<V>(page: PageSpec<V>) {
    page.cursor.Some? && page.cursor.value.before
  }

  function RestrictionOf<V>(sorts: seq<SortTerm>, policy: QueryPolicy, page: PageSpec<V>): Restriction<V> {
    if page.cursor.Some? then Restrict(sorts, policy, page.cursor.value.values, page.cursor.value.before)
    else Unrestricted
  }

  /** The statement a request executes, or the parameter it is refused for. */
  function Prepare<V>(sorts: seq<SortTerm>, policy: QueryPolicy, page: PageSpec<V>): Prepared<V>
    requires page.number >= 1
  {
    Assemble(RestrictionOf(sorts, policy, page), ApplySort(KeysetSorts(sorts, Backwards(page)), policy), page)
  }

  /** Cursor values that do not fit the addressable columns of the sort. */
  predicate Misplaced<V>(sorts: seq<SortTerm>, policy: QueryPolicy, page: PageSpec<V>) {
    && page.cursor.Some? && page.cursor.value.values != []
    && (KeysetColumns(sorts, policy).None? || |KeysetColumns(sorts, policy).value| != |page.cursor.value.values|)
  }

  /** What a request executes, or why it is refused: the page is refused before the sort; a condition is
      there exactly for a cursor with a position; a cursor replaces the offset; and one row is read too
      many. */
  lemma StatementIs<V>(sorts: seq<SortTerm>, policy: QueryPolicy, page: PageSpec<V>)
    requires page.number >= 1
    ensures
      var prepared := Prepare(sorts, policy, page);
      var order := ApplySort(KeysetSorts(sorts, Backwards(page)), policy);
      && (prepared == Refused(false) <==> Misplaced(sorts, policy, page))
      && (prepared == Refused(true) <==> !Misplaced(sorts, policy, page) && order.None?)
      && (prepared.Prepared? ==>
            var select := prepared.select;
            && Some(select.orderBy) == order && select.limit == page.size + 1
            && select.offset == (if page.cursor.Some? then 0 else (page.number - 1) * page.size)
            && (select.where.Some? <==> page.cursor.Some? && page.cursor.value.values != []))
  {
    hide ApplySort, KeysetColumns, KeysetSorts;
    TimesIsProduct(page.number - 1, page.size);
  }

  /** The page built from the raw rows: probe first, then fold, then cut, then turn around. */
  function PageFrom<V(==)>(page: PageSpec<V>, raw: seq<Row<V>>): Page<V> {
    var hasMore := |raw| > page.size;
    var folded := Take(Distinct(raw), page.size);
    var models := if Backwards(page) then Reverse(folded) else folded;
    Page(models, hasMore)
  }

  /** What one request returns, as a function of the rows. */
  function Listing<V(==)>(lt: (V, V) -> bool, bag: seq<Row<V>>, sorts: seq<SortTerm>, policy: QueryPolicy,
                          page: PageSpec<V>): Listed<V>
    requires page.number >= 1
  {
    match Prepare(sorts, policy, page)
    case Refused(asSort) => if asSort then InvalidSortError else InvalidPageError
    case Prepared(select) => Listed(PageFrom(page, Execute(lt, select, bag)))
  }

  /** Folds copies of a resource into its first occurrence. */
  method Fold<R(==)>(raw: seq<R>) returns (rows: seq<R>)
    ensures rows == Distinct(raw)
  {
    rows := [];
    for i := 0 to |raw|
      invariant rows == Distinct(raw[..i])
    {
      assert raw[..i + 1][..i] == raw[..i];
      if raw[i] !in raw[..i] {
        rows := rows + [raw[i]];
      }
    }
    assert raw[..|raw|] == raw;
  }

  /** Builds the statement one clause at a time. */
  method BuildStatement<V>(restriction: Restriction<V>, order: Option<seq<OrderTerm>>, page: PageSpec<V>)
    returns (prepared: Prepared<V>)
    requires page.number >= 1
    ensures prepared == Assemble(restriction, order, page)
  {
    var statement: Select<V> := Select(None, [], 0, 0);
    match restriction {
      case InvalidPage => return Refused(false);
      case Restricted(where) => statement := statement.(where := Some(where));
      case Unrestricted =>
    }
    if order.None? {
      return Refused(true);
    }
    statement := statement.(orderBy := order.value, limit := page.size + 1);
    if page.cursor.None? {
      statement := statement.(offset := Offset(page.number, page.size));
    }
    return Prepared(statement);
  }

  /** Reads one probe row too many, folds copies and turns a backwards page around in place. */
  method List<V(==)>(lt: (V, V) -> bool, bag: seq<Row<V>>, sorts: seq<SortTerm>, policy: QueryPolicy, page: PageSpec<V>)
    returns (listed: Listed<V>)
    requires page.number >= 1
    ensures listed == Listing(lt, bag, sorts, policy, page)
  {
    var restriction: Restriction<V> := Unrestricted;
    if page.cursor.Some? {
      restriction := ApplyKeyset(sorts, policy, page.cursor.value.values, page.cursor.value.before);
    }
    var prepared := BuildStatement(restriction, ApplySort(KeysetSorts(sorts, Backwards(page)), policy), page);
    if prepared.Refused? {
      return if prepared.asSort then InvalidSortError else InvalidPageError;
    }
    var raw := Execute(lt, prepared.select, bag);
    var hasMore := |raw| > page.size;
    var rows := Fold(raw);
    var models := Take(rows, page.size);
    if Backwards(page) {
      models := Reverse(models);
    }
    return Listed(Page(models, hasMore));
  }

  // ---- What a page is, in terms of the sorted collection ----

  /** The hypotheses under which cursor mode is meant to work: comparable values, a policy whose
      tie-breaker override is consistent, NOT NULL representable sort columns, a unique column. */
  ghost predicate Ready<V(!new)>(lt: (V, V) -> bool, bag: seq<Row<V>>, terms: seq<SortTerm>, policy: QueryPolicy) {
    var order := KeysetColumns(AppendTieBreaker(terms, policy), policy);
    && StrictTotal(lt)
    && OverridesAgree(terms, policy)
    && order.Some?
    && (forall row :: row in bag ==> NoNulls(order.value, row))
    && (forall a, b :: a in bag && b in bag && Cell(a, policy.tieColumn) == Cell(b, policy.tieColumn) ==> a == b)
  }

  function OrderOf(terms: seq<SortTerm>, policy: QueryPolicy): seq<OrderTerm>
    requires KeysetColumns(AppendTieBreaker(terms, policy), policy).Some?
  {
    KeysetColumns(AppendTieBreaker(terms, policy), policy).value
  }

  /** The order executed when walking in a direction. */
  function Directed(order: seq<OrderTerm>, before: bool): (d: seq<OrderTerm>)
    ensures |d| == |order|
  {
    if before then Flip(order) else order
  }

  function After<V(==)>(lt: (V, V) -> bool, order: seq<OrderTerm>, values: seq<V>): Row<V> -> bool
    requires |order| == |values|
  {
    (row: Row<V>) => LexBefore(NullsLast(lt), order, Position(values), Key(order, row))
  }

  /** All rows beyond a position, in the walking order. */
  function Rest<V(==)>(lt: (V, V) -> bool, order: seq<OrderTerm>, bag: seq<Row<V>>, values: seq<V>): seq<Row<V>>
    requires values == [] || |values| == |order|
  {
    var all := Ordered(Before(lt, order), bag);
    if values == [] then all else Filter(After(lt, order, values), all)
  }

  /** The distinct rows among the first size + 1, cut to size. */
  function PageModels<R(==)>(rest: seq<R>, size: nat): seq<R> {
    Take(Distinct(Take(rest, size + 1)), size)
  }

  lemma FilterSame<R(!new)>(p: R -> bool, q: R -> bool, s: seq<R>)
    requires forall x :: x in s ==> p(x) == q(x)
    ensures Filter(p, s) == Filter(q, s)
  {
    if s != [] {
      assert s == s[..|s| - 1] + [s[|s| - 1]];
      FilterSame(p, q, s[..|s| - 1]);
    }
  }

  lemma {:induction false} FilterNarrow<R(!new)>(p: R -> bool, q: R -> bool, s: seq<R>)
    requires forall x :: q(x) ==> p(x)
    ensures Filter(q, Filter(p, s)) == Filter(q, s)
  {
    if s != [] {
      FilterNarrow(p, q, s[..|s| - 1]);
      FilterSnoc(q, Filter(p, s[..|s| - 1]), s[|s| - 1]);
    }
  }

  lemma DirectedTotal<V(!new)>(lt: (V, V) -> bool, bag: seq<Row<V>>, terms: seq<SortTerm>, policy: QueryPolicy,
                               before: bool)
    requires Ready(lt, bag, terms, policy)
    ensures TotalOn(Before(lt, Directed(OrderOf(terms, policy), before)), bag)
  {
    var order := OrderOf(terms, policy);
    OrderIsUnique(terms, policy);
    var i :| 0 <= i < |order| && order[i].column == policy.tieColumn;
    assert Directed(order, before)[i].column == policy.tieColumn;
    BeforeTotal(lt, Directed(order, before), policy.tieColumn, bag);
  }

  /** The keyset clause of a cursor keeps exactly the rows after it in the walking order. */
  lemma KeptIsAfter<V(!new)>(lt: (V, V) -> bool, order: seq<OrderTerm>, bag: seq<Row<V>>, values: seq<V>, before: bool)
    requires 0 < |order| == |values|
    requires forall row :: row in bag ==> NoNulls(order, row)
    ensures Filter(HoldsIn(lt, KeysetClause(order, values, before)), bag)
            == Filter(After(lt, Directed(order, before), values), bag)
  {
    var p, q := HoldsIn(lt, KeysetClause(order, values, before)), After(lt, Directed(order, before), values);
    forall row | row in bag ensures p(row) == q(row) {
      KeysetExact(lt, order, values, before, row);
      LexFlip(NullsLast(lt), order, Position(values), Key(order, row));
      assert Key(Flip(order), row) == Key(order, row);
    }
    FilterSame(p, q, bag);
  }

  function Oriented<R>(s: seq<R>, before: bool): seq<R> {
    if before then Reverse(s) else s
  }

  lemma CursorRestriction<V>(terms: seq<SortTerm>, policy: QueryPolicy, values: seq<V>, before: bool)
    requires KeysetColumns(AppendTieBreaker(terms, policy), policy).Some?
    requires values == [] || |values| == |OrderOf(terms, policy)|
    ensures Restrict(AppendTieBreaker(terms, policy), policy, values, before)
            == if values == [] then Unrestricted else Restricted(KeysetClause(OrderOf(terms, policy), values, before))
  {}

  lemma CursorStatement<V(!new)>(lt: (V, V) -> bool, bag: seq<Row<V>>, terms: seq<SortTerm>, policy: QueryPolicy,
                                 size: nat, cursor: Cursor<V>)
    requires Ready(lt, bag, terms, policy)
    requires cursor.values == [] || |cursor.values| == |OrderOf(terms, policy)|
    ensures Prepare(AppendTieBreaker(terms, policy), policy, PageSpec(1, size, Some(cursor)))
            == Prepared(Select(if cursor.values == [] then None
                               else Some(KeysetClause(OrderOf(terms, policy), cursor.values, cursor.before)),
                               Directed(OrderOf(terms, policy), cursor.before), 0, size + 1))
  {
    hide AppendTieBreaker, KeysetColumns, Restrict, ApplySort, KeysetSorts, KeysetClause, Flip, OverridesAgree;
    hide StrictTotal;
    CursorRestriction(terms, policy, cursor.values, cursor.before);
    EffectiveOrder(terms, policy, cursor.before);
  }

  lemma CursorRows<V(!new)>(lt: (V, V) -> bool, bag: seq<Row<V>>, terms: seq<SortTerm>, policy: QueryPolicy,
                            cursor: Cursor<V>, where: Option<Clause<V>>, limit: nat)
    requires Ready(lt, bag, terms, policy)
    requires cursor.values == [] || |cursor.values| == |OrderOf(terms, policy)|
    requires where == if cursor.values == [] then None
                      else Some(KeysetClause(OrderOf(terms, policy), cursor.values, cursor.before))
    ensures Execute(lt, Select(where, Directed(OrderOf(terms, policy), cursor.before), 0, limit), bag)
            == Take(Rest(lt, Directed(OrderOf(terms, policy), cursor.before), bag, cursor.values), limit)
  {
    var order := OrderOf(terms, policy);
    var walk := Directed(order, cursor.before);
    if cursor.values != [] {
      DirectedTotal(lt, bag, terms, policy, cursor.before);
      KeptIsAfter(lt, order, bag, cursor.values, cursor.before);
      FilterOrdered(Before(lt, walk), After(lt, walk, cursor.values), bag);
    }
  }

  lemma ListingRuns<V(!new)>(lt: (V, V) -> bool, bag: seq<Row<V>>, sorts: seq<SortTerm>, policy: QueryPolicy,
                             page: PageSpec<V>, select: Select<V>)
    requires page.number >= 1 && Prepare(sorts, policy, page) == Prepared(select)
    ensures Listing(lt, bag, sorts, policy, page) == Listed(PageFrom(page, Execute(lt, select, bag)))
  {}

  /** The probe tells whether anything lies beyond the page. */
  lemma PageFromRest<V(!new)>(page: PageSpec<V>, rest: seq<Row<V>>)
    ensures var result := PageFrom(page, Take(rest, page.size + 1));
            && result.models == Oriented(PageModels(rest, page.size), Backwards(page))
            && result.hasMore == (|rest| > page.size)
  {}

  /** A cursor page, in either direction: the first rows beyond the cursor. */
  lemma CursorPage<V(!new)>(lt: (V, V) -> bool, bag: seq<Row<V>>, terms: seq<SortTerm>, policy: QueryPolicy,
                            size: nat, cursor: Cursor<V>)
    requires Ready(lt, bag, terms, policy)
    requires cursor.values == [] || |cursor.values| == |OrderOf(terms, policy)|
    ensures var listed := Listing(lt, bag, AppendTieBreaker(terms, policy), policy, PageSpec(1, size, Some(cursor)));
            var rest := Rest(lt, Directed(OrderOf(terms, policy), cursor.before), bag, cursor.values);
            && listed.Listed?
            && listed.page.models == Oriented(PageModels(rest, size), cursor.before)
            && listed.page.hasMore == (|rest| > size)
  {
    CursorStatement(lt, bag, terms, policy, size, cursor);
    var page := PageSpec(1, size, Some(cursor));
    var sorts, walk := AppendTieBreaker(terms, policy), Directed(OrderOf(terms, policy), cursor.before);
    var select := Prepare(sorts, policy, page).select;
    ListingRuns(lt, bag, sorts, policy, page, select);
    CursorRows(lt, bag, terms, policy, cursor, select.where, size + 1);
    PageFromRest(page, Rest(lt, walk, bag, cursor.values));
  }

  /** The rows from an offset page's first position on. */
  function Window<V(==)>(lt: (V, V) -> bool, order: seq<OrderTerm>, bag: seq<Row<V>>, number: nat,
                         size: nat): seq<Row<V>>
    requires number >= 1
  {
    Drop(Ordered(Before(lt, order), bag), Offset(number, size))
  }

  /** What `page[number]` returns, stated on the sorted rows. */
  function NumberedAt<V(==)>(lt: (V, V) -> bool, order: seq<OrderTerm>, bag: seq<Row<V>>, number: nat,
                             size: nat): Page<V>
    requires number >= 1
  {
    var window := Window(lt, order, bag, number, size);
    Page(PageModels(window, size), |window| > size)
  }

  /** An offset page, whatever the sort and the nullability of its columns: a window of the sorted rows, or
      INVALID_SORT. */
  lemma OffsetPage<V(!new)>(lt: (V, V) -> bool, bag: seq<Row<V>>, sorts: seq<SortTerm>, policy: QueryPolicy,
                            size: nat, number: nat)
    requires number >= 1
    ensures var order := ApplySort(sorts, policy);
            Listing(lt, bag, sorts, policy, PageSpec(number, size, None))
            == if order.None? then InvalidSortError else Listed(NumberedAt(lt, order.value, bag, number, size))
  {
    hide ApplySort;
    var page: PageSpec<V> := PageSpec(number, size, None);
    var order := ApplySort(sorts, policy);
    if order.Some? {
      ListingRuns(lt, bag, sorts, policy, page, Select(None, order.value, Offset(number, size), size + 1));
      PageFromRest(page, Window(lt, order.value, bag, number, size));
      OffsetRows(lt, bag, order.value, number, size);
    }
  }

  lemma OffsetRows<V(!new)>(lt: (V, V) -> bool, bag: seq<Row<V>>, order: seq<OrderTerm>, number: nat, size: nat)
    requires number >= 1
    ensures Execute(lt, Select(None, order, Offset(number, size), size + 1), bag)
            == Take(Window(lt, order, bag, number, size), size + 1)
  {}

  // ---- One step of a walk ----

  lemma TakeTotal<R(!new)>(before: (R, R) -> bool, s: seq<R>, t: seq<R>)
    requires TotalOn(before, s) && forall x :: x in t ==> x in s
    ensures TotalOn(before, t)
  {}

  lemma PrefixSorted<R(!new)>(before: (R, R) -> bool, s: seq<R>, n: nat)
    requires n <= |s| && TotalOn(before, s) && Sorted(before, s)
    ensures TotalOn(before, s[..n]) && Sorted(before, s[..n])
  {
    forall x | x in s[..n] ensures x in s {}
  }

  /** A page is the distinct rows of some prefix, and ends with that prefix's last row. */
  lemma PageIsPrefix<R(!new)>(before: (R, R) -> bool, rest: seq<R>, size: nat) returns (m: nat)
    requires TotalOn(before, rest) && Sorted(before, rest) && size >= 1 && rest != []
    ensures 0 < m <= |rest| && PageModels(rest, size) == Distinct(rest[..m])
    ensures PageModels(rest, size) != [] && PageModels(rest, size)[|PageModels(rest, size)| - 1] == rest[m - 1]
    ensures |rest| <= size ==> m == |rest|
  {
    hide Distinct, TotalOn, Sorted;
    var raw := Take(rest, size + 1);
    m := |raw|;
    if |Distinct(raw)| > size {
      DistinctFull(raw);
      m := size;
      assert raw[..size] == rest[..size];
      DistinctPrefix(raw, size);
    }
    PrefixSorted(before, rest, m);
    DistinctStrict(before, rest[..m]);
  }

  lemma {:induction false} DistinctPrefix<R(!new)>(s: seq<R>, n: nat)
    requires Distinct(s) == s && n <= |s|
    ensures Distinct(s[..n]) == s[..n]
    decreases |s|
  {
    if n == |s| {
      assert s[..n] == s;
    } else {
      var init := s[..|s| - 1];
      assert s == init + [s[|s| - 1]];
      assert |Distinct(init)| >= |init|;
      DistinctFull(init);
      DistinctPrefix(init, n);
      assert init[..n] == s[..n];
    }
  }

  lemma AfterMint<V(!new)>(lt: (V, V) -> bool, order: seq<OrderTerm>, last: Row<V>, row: Row<V>)
    requires NoNulls(order, last)
    ensures After(lt, order, KeyValues(order, last))(row) == Before(lt, order)(last, row)
  {}

  lemma NarrowRest<V(!new)>(lt: (V, V) -> bool, order: seq<OrderTerm>, bag: seq<Row<V>>, values: seq<V>, last: Row<V>)
    requires StrictTotal(lt) && 0 < |order| && (values == [] || |values| == |order|)
    requires NoNulls(order, last) && last in Rest(lt, order, bag, values)
    ensures Rest(lt, order, bag, KeyValues(order, last))
            == Filter(After(lt, order, KeyValues(order, last)), Rest(lt, order, bag, values))
  {
    if values != [] {
      var all := Ordered(Before(lt, order), bag);
      var p, q := After(lt, order, values), After(lt, order, KeyValues(order, last));
      FilterMembers(p, all);
      NullsLastTotal(lt);
      forall row | q(row) ensures p(row) {
        LexTransitive(NullsLast(lt), order, Position(values), Key(order, last), Key(order, row));
      }
      FilterNarrow(p, q, all);
    }
  }

  lemma RestSorted<V(!new)>(lt: (V, V) -> bool, order: seq<OrderTerm>, bag: seq<Row<V>>, values: seq<V>)
    requires TotalOn(Before(lt, order), bag) && (values == [] || |values| == |order|)
    ensures var rest := Rest(lt, order, bag, values);
            && TotalOn(Before(lt, order), rest) && Sorted(Before(lt, order), rest)
            && forall x :: x in rest ==> x in bag
  {
    var before := Before(lt, order);
    var all := Ordered(before, bag);
    OrderedSorted(before, bag);
    SameMembers(all, bag);
    TakeTotal(before, bag, all);
    if values != [] {
      FilterMembers(After(lt, order, values), all);
      FilterSorted(before, After(lt, order, values), all);
      TakeTotal(before, bag, Rest(lt, order, bag, values));
    }
  }

  /** A page and the rows after its last row partition the distinct rows. */
  lemma PageCut<R(!new)>(before: (R, R) -> bool, rest: seq<R>, size: nat, after: R -> bool)
    requires TotalOn(before, rest) && Sorted(before, rest) && size >= 1 && rest != []
    requires PageModels(rest, size) != [] ==>
      forall x :: after(x) <==> before(PageModels(rest, size)[|PageModels(rest, size)| - 1], x)
    ensures var models := PageModels(rest, size);
            && models != [] && models[|models| - 1] in rest
            && |Filter(after, rest)| < |rest|
            && Distinct(rest) == models + Distinct(Filter(after, rest))
            && (|rest| <= size ==> models == Distinct(rest))
  {
    hide Distinct, TotalOn, Sorted, Filter, PageModels;
    var m := PageIsPrefix(before, rest, size);
    DistinctCut(before, rest, m, after);
    assert rest[..|rest|] == rest;
    assert !after(rest[m - 1]) by { NotBeforeSelf(before, rest, m - 1); }
    FilterDrops(after, rest, m - 1);
  }

  lemma NotBeforeSelf<R(!new)>(before: (R, R) -> bool, rest: seq<R>, i: nat)
    requires i < |rest| && TotalOn(before, rest)
    ensures !before(rest[i], rest[i])
  {}

  /** Following a cursor: the page and the rows beyond its last row partition the distinct rows,
      and strictly fewer rows remain. */
  lemma PageAdvance<V(!new)>(lt: (V, V) -> bool, order: seq<OrderTerm>, bag: seq<Row<V>>, values: seq<V>, size: nat)
    returns (last: Row<V>)
    requires StrictTotal(lt) && 0 < |order| && TotalOn(Before(lt, order), bag) && size >= 1
    requires forall row :: row in bag ==> NoNulls(order, row)
    requires values == [] || |values| == |order|
    requires Rest(lt, order, bag, values) != []
    ensures var rest := Rest(lt, order, bag, values);
            var models := PageModels(rest, size);
            && models != [] && models[|models| - 1] == last && last in bag
            && var onward := Rest(lt, order, bag, KeyValues(order, last));
            && |onward| < |rest|
            && Distinct(rest) == models + Distinct(onward)
            && (|rest| <= size ==> models == Distinct(rest))
  {
    var rest := Rest(lt, order, bag, values);
    var models := PageModels(rest, size);
    RestSorted(lt, order, bag, values);
    var m := PageIsPrefix(Before(lt, order), rest, size);
    last := models[|models| - 1];
    assert last == rest[m - 1] && last in rest;
    NarrowRest(lt, order, bag, values, last);
    PageCut(Before(lt, order), rest, size, After(lt, order, KeyValues(order, last)));
  }

  lemma {:induction false} FilterDrops<R>(keep: R -> bool, s: seq<R>, i: nat)
    requires i < |s| && !keep(s[i])
    ensures |Filter(keep, s)| < |s|
  {
    if i < |s| - 1 {
      FilterDrops(keep, s[..|s| - 1], i);
    }
  }
}
