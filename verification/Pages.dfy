/** Cursor pages against numbered pages. */
module Pages {
  import opened Wrappers
  import opened Sorting
  import opened SortTerms
  import opened Keyset
  import opened Index
  import opened Walk

  ghost predicate NoCopies<R>(s: seq<R>) {
    forall i, j :: 0 <= i < j < |s| ==> s[i] != s[j]
  }

  ghost predicate Strict<R>(before: (R, R) -> bool, s: seq<R>) {
    forall i, j :: 0 <= i < j < |s| ==> before(s[i], s[j])
  }

  /** The response to `page[number]=number`. */
  function Numbered<V(==)>(lt: (V, V) -> bool, bag: seq<Row<V>>, sorts: seq<SortTerm>, policy: QueryPolicy,
                           size: nat, number: nat): Listed<V>
    requires number >= 1
  {
    Listing(lt, bag, sorts, policy, PageSpec(number, size, None))
  }

  // ---- Strictly sorted lists ----

  lemma {:induction false} CountsOne<R>(s: seq<R>)
    ensures NoCopies(s) <==> forall x :: multiset(s)[x] <= 1
  {
    if s != [] {
      var init, x := s[..|s| - 1], s[|s| - 1];
      assert s == init + [x];
      CountsOne(init);
      if NoCopies(s) {
        assert x !in init;
        forall y ensures multiset(s)[y] <= 1 {}
      }
      if forall y :: multiset(s)[y] <= 1 {
        assert multiset(s)[x] <= 1;
        assert multiset(init)[x] == 0;
        forall y ensures multiset(init)[y] <= 1 { assert multiset(s)[y] <= 1; }
        forall i | 0 <= i < |init| ensures s[i] != x { assert init[i] in multiset(init); }
      }
    }
  }

  lemma OrderedStrict<R(!new)>(before: (R, R) -> bool, bag: seq<R>)
    requires TotalOn(before, bag) && NoCopies(bag)
    ensures Strict(before, Ordered(before, bag))
  {
    var all := Ordered(before, bag);
    OrderedSorted(before, bag);
    SameMembers(all, bag);
    CountsOne(bag);
    CountsOne(all);
    forall i, j | 0 <= i < j < |all| ensures before(all[i], all[j]) {
      assert all[i] in all && all[j] in all && all[i] in bag && all[j] in bag;
    }
  }

  lemma {:induction false} DistinctSelf<R(!new)>(s: seq<R>)
    requires NoCopies(s)
    ensures Distinct(s) == s
  {
    if s != [] {
      assert s == s[..|s| - 1] + [s[|s| - 1]];
      DistinctSelf(s[..|s| - 1]);
    }
  }

  lemma StrictNoCopies<R(!new)>(before: (R, R) -> bool, s: seq<R>)
    requires Strict(before, s) && forall x :: !before(x, x)
    ensures NoCopies(s)
  {}

  /** A condition that holds exactly from row m on keeps that suffix. */
  lemma {:induction false} FilterFrom<R(!new)>(keep: R -> bool, s: seq<R>, m: nat)
    requires m <= |s| && forall i :: 0 <= i < |s| ==> (keep(s[i]) <==> m <= i)
    ensures Filter(keep, s) == s[m..]
    decreases |s|
  {
    if m == |s| {
      FilterNone(keep, s);
    } else {
      var init := s[..|s| - 1];
      FilterFrom(keep, init, m);
      assert init[m..] + [s[|s| - 1]] == s[m..];
    }
  }

  /** A condition that stays true once true holds exactly from some row on. */
  lemma {:induction false} FirstKept<R>(keep: R -> bool, s: seq<R>) returns (q: nat)
    requires forall i, j :: 0 <= i < j < |s| && keep(s[i]) ==> keep(s[j])
    ensures q <= |s| && forall i :: 0 <= i < |s| ==> (keep(s[i]) <==> q <= i)
  {
    q := 0;
    while q < |s| && !keep(s[q])
      invariant q <= |s| && forall i :: 0 <= i < q ==> !keep(s[i])
    {
      q := q + 1;
    }
  }

  /** With no copies a page is exactly the first rows, and what follows is the rest. */
  lemma StrictPage<R(!new)>(before: (R, R) -> bool, rest: seq<R>, size: nat)
    requires Strict(before, rest) && forall x :: !before(x, x)
    ensures PageModels(rest, size) == Take(rest, size)
  {
    var raw := Take(rest, size + 1);
    assert Strict(before, raw);
    StrictNoCopies(before, raw);
    DistinctSelf(raw);
  }

  lemma StrictDrop<R>(before: (R, R) -> bool, s: seq<R>, q: nat)
    requires Strict(before, s) && q <= |s|
    ensures Strict(before, s[q..])
  {
    assert forall i :: 0 <= i < |s| - q ==> s[q..][i] == s[q + i];
  }

  lemma Irreflexive<R(!new)>(before: (R, R) -> bool, bag: seq<R>)
    requires TotalOn(before, bag)
    ensures forall x :: !before(x, x)
  {}

  /** The page of the sorted rows that starts at row q, and the row its link continues from. */
  lemma SuffixPage<R(!new)>(before: (R, R) -> bool, bag: seq<R>, q: nat, size: nat)
    requires TotalOn(before, bag) && NoCopies(bag) && q <= |Ordered(before, bag)| && size >= 1
    ensures var all := Ordered(before, bag);
            var models := PageModels(all[q..], size);
            && models == Take(all[q..], size)
            && (q < |all| ==> models != [] && models[0] == all[q])
            && (q + size < |all| ==> models == all[q..q + size] && models[size - 1] == all[q + size - 1])
  {
    hide Ordered, PageModels, TotalOn;
    var all := Ordered(before, bag);
    OrderedStrict(before, bag);
    StrictDrop(before, all, q);
    Irreflexive(before, bag);
    StrictPage(before, all[q..], size);
  }

  lemma StrictOnward<R(!new)>(before: (R, R) -> bool, s: seq<R>, m: nat, after: R -> bool)
    requires Strict(before, s) && forall x :: !before(x, x)
    requires forall x, y, z :: before(x, y) && before(y, z) ==> before(x, z)
    requires 0 < m <= |s| && forall x :: after(x) <==> before(s[m - 1], x)
    ensures Filter(after, s) == s[m..]
  {
    forall i | 0 <= i < |s| ensures after(s[i]) <==> m <= i {
      if i < m - 1 { assert before(s[i], s[m - 1]); }
    }
    FilterFrom(after, s, m);
  }

  // ---- Where a cursor stands ----

  lemma AfterIsUpward<V(!new)>(lt: (V, V) -> bool, order: seq<OrderTerm>, values: seq<V>, a: Row<V>, b: Row<V>)
    requires StrictTotal(lt) && |order| == |values|
    requires After(lt, order, values)(a) && Before(lt, order)(a, b)
    ensures After(lt, order, values)(b)
  {
    NullsLastTotal(lt);
    LexTransitive(NullsLast(lt), order, Position(values), Key(order, a), Key(order, b));
  }

  /** Without copies, any position leaves a suffix of the sorted rows. */
  lemma RestIsSuffix<V(!new)>(lt: (V, V) -> bool, order: seq<OrderTerm>, bag: seq<Row<V>>, values: seq<V>)
    returns (q: nat)
    requires StrictTotal(lt) && TotalOn(Before(lt, order), bag) && NoCopies(bag)
    requires values == [] || |values| == |order|
    ensures q <= |Ordered(Before(lt, order), bag)|
    ensures Rest(lt, order, bag, values) == Ordered(Before(lt, order), bag)[q..]
  {
    var all := Ordered(Before(lt, order), bag);
    q := 0;
    if values != [] {
      OrderedStrict(Before(lt, order), bag);
      var after := After(lt, order, values);
      forall i, j | 0 <= i < j < |all| && after(all[i]) ensures after(all[j]) {
        AfterIsUpward(lt, order, values, all[i], all[j]);
      }
      q := FirstKept(after, all);
      FilterFrom(after, all, q);
    }
  }

  /** Continuing from row m - 1 of the sorted rows leaves the rows from m on. */
  lemma RestAfterRow<V(!new)>(lt: (V, V) -> bool, order: seq<OrderTerm>, bag: seq<Row<V>>, m: nat, row: Row<V>)
    requires TotalOn(Before(lt, order), bag) && NoCopies(bag) && 0 < |order| && NoNulls(order, row)
    requires 0 < m <= |Ordered(Before(lt, order), bag)| && Ordered(Before(lt, order), bag)[m - 1] == row
    ensures Rest(lt, order, bag, KeyValues(order, row)) == Ordered(Before(lt, order), bag)[m..]
  {
    var all := Ordered(Before(lt, order), bag);
    var after := After(lt, order, KeyValues(order, row));
    OrderedStrict(Before(lt, order), bag);
    forall x ensures after(x) == Before(lt, order)(row, x) { AfterMint(lt, order, row, x); }
    StrictOnward(Before(lt, order), all, m, after);
  }

  lemma SortedRow<V(!new)>(lt: (V, V) -> bool, order: seq<OrderTerm>, bag: seq<Row<V>>, i: nat)
    requires Walkable(lt, order, bag) && i < |Ordered(Before(lt, order), bag)|
    ensures NoNulls(order, Ordered(Before(lt, order), bag)[i])
  {
    var all := Ordered(Before(lt, order), bag);
    SameMembers(all, bag);
    assert all[i] in all;
  }

  lemma EdgeOfSlice<V>(order: seq<OrderTerm>, all: seq<Row<V>>, q: nat, size: nat)
    requires size >= 1 && q + size < |all| && NoNulls(order, all[q + size - 1])
    ensures OnwardAt(order, false, Page(Take(all[q..], size), true))
            == Some(Cursor(false, KeyValues(order, all[q + size - 1])))
  {
    assert Take(all[q..], size)[size - 1] == all[q + size - 1];
  }

  /** A forward page that is not the last one holds exactly `size` consecutive rows, and its `next`
      continues right behind them. */
  ghost predicate Windowed<V(!new)>(lt: (V, V) -> bool, order: seq<OrderTerm>, bag: seq<Row<V>>, size: nat, q: nat,
                                    page: Page<V>)
  {
    var all := Ordered(Before(lt, order), bag);
    var onward := OnwardAt(order, false, page);
    && q <= |all|
    && page == Page(Take(all[q..], size), q + size < |all|)
    && (onward.Some? <==> q + size < |all|)
    && (onward.Some? ==> |onward.value.values| == |order|
                         && Rest(lt, order, bag, onward.value.values) == all[q + size..])
  }

  lemma ForwardPage<V(!new)>(lt: (V, V) -> bool, order: seq<OrderTerm>, bag: seq<Row<V>>, size: nat, values: seq<V>,
                             q: nat)
    requires Walkable(lt, order, bag) && size >= 1 && NoCopies(bag)
    requires values == [] || |values| == |order|
    requires q <= |Ordered(Before(lt, order), bag)|
    requires Rest(lt, order, bag, values) == Ordered(Before(lt, order), bag)[q..]
    ensures Windowed(lt, order, bag, size, q, PageAt(lt, order, bag, size, false, values))
  {
    var all := Ordered(Before(lt, order), bag);
    SuffixPage(Before(lt, order), bag, q, size);
    ForwardLink(lt, order, bag, size, q);
  }

  lemma ForwardLink<V(!new)>(lt: (V, V) -> bool, order: seq<OrderTerm>, bag: seq<Row<V>>, size: nat, q: nat)
    requires Walkable(lt, order, bag) && size >= 1 && NoCopies(bag)
    requires q <= |Ordered(Before(lt, order), bag)|
    ensures var all := Ordered(Before(lt, order), bag);
            Windowed(lt, order, bag, size, q, Page(Take(all[q..], size), q + size < |all|))
  {
    hide Ordered, Rest, Filter, Distinct;
    var all := Ordered(Before(lt, order), bag);
    if q + size < |all| {
      SortedRow(lt, order, bag, q + size - 1);
      EdgeOfSlice(order, all, q, size);
      RestAfterRow(lt, order, bag, q + size, all[q + size - 1]);
    }
  }

  /** The position the `next` link of a forward page carries. */
  function LinkFrom<V(==)>(lt: (V, V) -> bool, bag: seq<Row<V>>, terms: seq<SortTerm>, policy: QueryPolicy,
                           size: nat, values: seq<V>): Option<seq<V>>
  {
    var listed := Request(lt, bag, terms, policy, size, false, values);
    if !listed.Listed? then None
    else
      var onward := Onward(terms, policy, false, values, listed.page);
      if onward.Some? then Some(onward.value.values) else None
  }

  /** The position reached by following `next` k times from `page[after]=`. */
  function NthPosition<V(==)>(lt: (V, V) -> bool, bag: seq<Row<V>>, terms: seq<SortTerm>, policy: QueryPolicy,
                              size: nat, k: nat): Option<seq<V>>
  {
    if k == 0 then Some([])
    else
      var previous := NthPosition(lt, bag, terms, policy, size, k - 1);
      if previous.Some? then LinkFrom(lt, bag, terms, policy, size, previous.value) else None
  }

  lemma LinkFromIs<V(!new)>(lt: (V, V) -> bool, bag: seq<Row<V>>, terms: seq<SortTerm>, policy: QueryPolicy,
                            size: nat, values: seq<V>)
    requires Ready(lt, bag, terms, policy) && Addresses(terms, policy, values)
    ensures var onward := OnwardAt(OrderOf(terms, policy), false,
                                   PageAt(lt, OrderOf(terms, policy), bag, size, false, values));
            LinkFrom(lt, bag, terms, policy, size, values) == if onward.Some? then Some(onward.value.values) else None
  {
    RequestIs(lt, bag, terms, policy, size, false, values);
  }

  /** Where the walk stands after k pages: right behind the first k windows. */
  ghost predicate StandsAt<V(!new)>(lt: (V, V) -> bool, order: seq<OrderTerm>, bag: seq<Row<V>>, start: nat,
                                    position: Option<seq<V>>)
  {
    var all := Ordered(Before(lt, order), bag);
    && (position.Some? <==> start == 0 || start < |all|)
    && (position.Some? ==>
          && (position.value == [] || |position.value| == |order|)
          && Rest(lt, order, bag, position.value) == all[start..])
  }

  lemma StandsNext<V(!new)>(lt: (V, V) -> bool, order: seq<OrderTerm>, bag: seq<Row<V>>, size: nat, start: nat,
                            values: seq<V>)
    requires Walkable(lt, order, bag) && size >= 1 && NoCopies(bag)
    requires StandsAt(lt, order, bag, start, Some(values))
    ensures var onward := OnwardAt(order, false, PageAt(lt, order, bag, size, false, values));
            StandsAt(lt, order, bag, start + size, if onward.Some? then Some(onward.value.values) else None)
  {
    ForwardPage(lt, order, bag, size, values, start);
  }

  lemma {:induction false} NthStands<V(!new)>(lt: (V, V) -> bool, bag: seq<Row<V>>, terms: seq<SortTerm>,
                                              policy: QueryPolicy, size: nat, k: nat)
    requires Ready(lt, bag, terms, policy) && size >= 1 && NoCopies(bag)
    ensures StandsAt(lt, OrderOf(terms, policy), bag, Times(k, size), NthPosition(lt, bag, terms, policy, size, k))
  {
    hide Listing, KeysetColumns, AppendTieBreaker, Ordered, Filter;
    if k > 0 {
      NthStands(lt, bag, terms, policy, size, k - 1);
      var previous := NthPosition(lt, bag, terms, policy, size, k - 1);
      if previous.Some? {
        ReadyWalkable(lt, bag, terms, policy);
        LinkFromIs(lt, bag, terms, policy, size, previous.value);
        StandsNext(lt, OrderOf(terms, policy), bag, size, Times(k - 1, size), previous.value);
      }
    }
  }

  /** The k-th page of the cursor walk is `page[number]=k`: same rows, same `has more`, and the walk
      reaches it exactly when the numbered pages do. */
  lemma CursorMatchesOffset<V(!new)>(lt: (V, V) -> bool, bag: seq<Row<V>>, terms: seq<SortTerm>, policy: QueryPolicy,
                                     size: nat, k: nat)
    requires Ready(lt, bag, terms, policy) && size >= 1 && NoCopies(bag) && k >= 1
    ensures var position := NthPosition(lt, bag, terms, policy, size, k - 1);
            && (position.Some? <==> k == 1 || Offset(k, size) < |bag|)
            && (position.Some? ==>
                  Request(lt, bag, terms, policy, size, false, position.value)
                  == Numbered(lt, bag, AppendTieBreaker(terms, policy), policy, size, k))
  {
    hide Request, Numbered, KeysetColumns, AppendTieBreaker, NthPosition, StandsAt, Times, NoCopies, StrictTotal;
    NthStands(lt, bag, terms, policy, size, k - 1);
    var position := NthPosition(lt, bag, terms, policy, size, k - 1);
    StandsSome(lt, OrderOf(terms, policy), bag, size, k, position);
    if position.Some? {
      MatchAt(lt, bag, terms, policy, size, k, position.value);
    }
  }

  lemma OrderedLength<V>(lt: (V, V) -> bool, order: seq<OrderTerm>, bag: seq<Row<V>>)
    ensures |Ordered(Before(lt, order), bag)| == |bag|
  {}

  /** The walk stands somewhere exactly when the numbered page has rows, or is the first. */
  lemma StandsSome<V(!new)>(lt: (V, V) -> bool, order: seq<OrderTerm>, bag: seq<Row<V>>, size: nat, k: nat,
                            position: Option<seq<V>>)
    requires k >= 1 && size >= 1 && StandsAt(lt, order, bag, Times(k - 1, size), position)
    ensures position.Some? <==> k == 1 || Offset(k, size) < |bag|
  {
    OrderedLength(lt, order, bag);
    assert k > 1 ==> Times(k - 1, size) == Times(k - 2, size) + size;
  }

  lemma MatchAt<V(!new)>(lt: (V, V) -> bool, bag: seq<Row<V>>, terms: seq<SortTerm>, policy: QueryPolicy,
                         size: nat, k: nat, values: seq<V>)
    requires Ready(lt, bag, terms, policy) && k >= 1
    requires StandsAt(lt, OrderOf(terms, policy), bag, Offset(k, size), Some(values))
    ensures Request(lt, bag, terms, policy, size, false, values)
            == Numbered(lt, bag, AppendTieBreaker(terms, policy), policy, size, k)
  {
    EffectiveOrder(terms, policy, false);
    hide Listing, KeysetColumns, AppendTieBreaker, ApplySort, Ordered, Rest, Filter;
    RequestIs(lt, bag, terms, policy, size, false, values);
    OffsetPage(lt, bag, AppendTieBreaker(terms, policy), policy, size, k);
    SameWindow(lt, OrderOf(terms, policy), bag, size, k, values);
  }

  lemma SameWindow<V(!new)>(lt: (V, V) -> bool, order: seq<OrderTerm>, bag: seq<Row<V>>, size: nat, k: nat,
                            values: seq<V>)
    requires k >= 1 && StandsAt(lt, order, bag, Offset(k, size), Some(values))
    ensures PageAt(lt, order, bag, size, false, values) == NumberedAt(lt, order, bag, k, size)
  {}

  lemma FlippedRows<V(!new)>(lt: (V, V) -> bool, order: seq<OrderTerm>, bag: seq<Row<V>>)
    requires TotalOn(Before(lt, order), bag)
    ensures Ordered(Before(lt, Flip(order)), bag) == Reverse(Ordered(Before(lt, order), bag))
  {
    var before, flipped := Before(lt, order), Before(lt, Flip(order));
    forall x, y ensures flipped(x, y) <==> before(y, x) { BeforeFlip(lt, order, x, y); }
    OrderedFlip(before, flipped, bag);
  }

  lemma FlippedKey<V>(order: seq<OrderTerm>, row: Row<V>)
    requires NoNulls(order, row)
    ensures NoNulls(Flip(order), row) && KeyValues(Flip(order), row) == KeyValues(order, row)
  {}

  lemma BackRest<V(!new)>(lt: (V, V) -> bool, order: seq<OrderTerm>, bag: seq<Row<V>>, p: nat, row: Row<V>)
    requires Walkable(lt, order, bag) && NoCopies(bag) && NoNulls(order, row)
    requires p < |Ordered(Before(lt, order), bag)| && Ordered(Before(lt, order), bag)[p] == row
    ensures var reversed := Ordered(Before(lt, Flip(order)), bag);
            && reversed == Reverse(Ordered(Before(lt, order), bag))
            && Rest(lt, Flip(order), bag, KeyValues(order, row)) == reversed[|reversed| - p..]
  {
    hide Ordered, Filter, Rest, Before;
    var all := Ordered(Before(lt, order), bag);
    FlippedRows(lt, order, bag);
    FlippedKey(order, row);
    assert Reverse(all)[|all| - p - 1] == row;
    RestAfterRow(lt, Flip(order), bag, |all| - p, row);
  }

  // ---- Numbered pages over a scope that multiplies rows ----

  /** The probe and the paid-for count never disagree about a next page. */
  lemma ProbeAgreesWithCount<V(!new)>(lt: (V, V) -> bool, bag: seq<Row<V>>, sorts: seq<SortTerm>, policy: QueryPolicy,
                                      size: nat, number: nat)
    requires ApplySort(sorts, policy).Some? && size >= 1 && number >= 1
    ensures var listed := Numbered(lt, bag, sorts, policy, size, number);
            listed.Listed? && (listed.page.hasMore <==> number < LastPage(|bag|, size))
  {
    hide ApplySort, LastPage;
    OffsetPage(lt, bag, sorts, policy, size, number);
    NumberedMore(lt, ApplySort(sorts, policy).value, bag, number, size);
    PagesCover(|bag|, size, number);
  }

  lemma NumberedMore<V>(lt: (V, V) -> bool, order: seq<OrderTerm>, bag: seq<Row<V>>, number: nat, size: nat)
    requires number >= 1
    ensures NumberedAt(lt, order, bag, number, size).hasMore <==> Times(number, size) < |bag|
  {}

  lemma PagesCover(total: nat, size: nat, number: nat)
    requires size >= 1 && number >= 1
    ensures Times(number, size) < total <==> number < LastPage(total, size)
  {
    var pages := (total + size - 1) / size;
    TimesIsProduct(pages, size);
    assert Times(pages, size) <= total + size - 1 < Times(pages, size) + size;
    if number < pages {
      TimesMonotone(number, pages - 1, size);
    } else {
      TimesMonotone(pages, number, size);
    }
  }

  /** Every resource lies on some numbered page, and all pages before that one announce a next
      page, however often the scope repeats rows. */
  lemma OffsetWalkReaches<V(!new)>(lt: (V, V) -> bool, bag: seq<Row<V>>, sorts: seq<SortTerm>, policy: QueryPolicy,
                                   size: nat, row: Row<V>) returns (k: nat)
    requires ApplySort(sorts, policy).Some? && size >= 1 && row in bag
    ensures k >= 1
    ensures forall n :: 1 <= n <= k ==> Numbered(lt, bag, sorts, policy, size, n).Listed?
    ensures forall n :: 1 <= n < k ==> Numbered(lt, bag, sorts, policy, size, n).page.hasMore
    ensures row in Numbered(lt, bag, sorts, policy, size, k).page.models
  {
    hide Listing, ApplySort, Ordered, Window, Distinct, Filter;
    var order := ApplySort(sorts, policy).value;
    var i := RowIndex(lt, order, bag, row);
    var start: nat;
    k, start := PageOf(i, size);
    forall n | 1 <= n <= k
      ensures Numbered(lt, bag, sorts, policy, size, n).Listed?
      ensures n < k ==> Numbered(lt, bag, sorts, policy, size, n).page.hasMore
    {
      OffsetPage(lt, bag, sorts, policy, size, n);
      if n < k {
        TimesMonotone(n, k - 1, size);
        NumberedMore(lt, order, bag, n, size);
      }
    }
    OffsetPage(lt, bag, sorts, policy, size, k);
    NumberedKeeps(lt, order, bag, k, size, i);
  }

  lemma NumberedKeeps<V(!new)>(lt: (V, V) -> bool, order: seq<OrderTerm>, bag: seq<Row<V>>, number: nat, size: nat,
                               i: nat)
    requires number >= 1 && i < |Ordered(Before(lt, order), bag)|
    requires Offset(number, size) <= i < Offset(number, size) + size
    ensures Ordered(Before(lt, order), bag)[i] in NumberedAt(lt, order, bag, number, size).models
  {
    hide Ordered, PageModels, Before, Offset;
    PageKeepsWindow(Window(lt, order, bag, number, size), size, i - Offset(number, size));
  }

  lemma RowIndex<V(!new)>(lt: (V, V) -> bool, order: seq<OrderTerm>, bag: seq<Row<V>>, row: Row<V>) returns (i: nat)
    requires row in bag
    ensures i < |Ordered(Before(lt, order), bag)| && Ordered(Before(lt, order), bag)[i] == row
  {
    var all := Ordered(Before(lt, order), bag);
    SameMembers(all, bag);
    i :| 0 <= i < |all| && all[i] == row;
  }

  lemma PageOf(i: nat, size: nat) returns (k: nat, start: nat)
    requires size >= 1
    ensures k >= 1 && start == Offset(k, size) && start <= i < start + size
  {
    k := i / size + 1;
    start := Offset(k, size);
    TimesIsProduct(k - 1, size);
  }

  lemma {:induction false} TimesMonotone(a: nat, b: nat, size: nat)
    requires a <= b
    ensures Times(a, size) <= Times(b, size)
  {
    if a < b { TimesMonotone(a, b - 1, size); }
  }

  /** Folding the probe row in never pushes a row of the window off its page. */
  lemma PageKeepsWindow<R(!new)>(window: seq<R>, size: nat, i: nat)
    requires i < size && i < |window|
    ensures window[i] in PageModels(window, size)
  {
    var raw := Take(window, size + 1);
    var rows := Distinct(raw);
    DistinctMembers(raw);
    assert raw[i] == window[i];
    if |rows| > size {
      DistinctFull(raw);
      assert Take(rows, size)[i] == window[i];
    } else {
      assert Take(rows, size) == rows;
      assert raw[i] in raw;
    }
  }
}
