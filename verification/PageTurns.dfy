/** Turning a page and turning back, in a scope without copies, and when the page turned to is empty. */
module PageTurns {
  import opened Wrappers
  import opened Arithmetic
  import opened Sorting
  import opened SortTerms
  import opened Keyset
  import opened Index
  import opened Walk
  import opened Pages

  /** The page is the slice from i up to j of the sorted rows: as much as fits behind its start, or in
      front of its end. */
  ghost predicate Shows<V(!new)>(lt: (V, V) -> bool, order: seq<OrderTerm>, bag: seq<Row<V>>, size: nat, before: bool,
                                 page: Page<V>, i: nat, j: nat)
  {
    var all := Ordered(Before(lt, order), bag);
    && i <= j <= |all| && page.models == all[i..j]
    && (if before then i == (if j < size then 0 else j - size) else j == Min(i + size, |all|))
    && (page.hasMore <==> if before then i > 0 else j < |all|)
  }

  lemma TakeSlice<R>(all: seq<R>, i: nat, size: nat)
    requires i <= |all|
    ensures Take(all[i..], size) == all[i..Min(i + size, |all|)]
  {}

  lemma ReverseSlice<R>(all: seq<R>, j: nat, size: nat)
    requires j <= |all|
    ensures Reverse(Take(Reverse(all)[|all| - j..], size)) == all[if j < size then 0 else j - size..j]
  {}

  /** A forward page whose rest starts at row i. */
  lemma ForwardShows<V(!new)>(lt: (V, V) -> bool, order: seq<OrderTerm>, bag: seq<Row<V>>, size: nat, values: seq<V>,
                              i: nat)
    requires Walkable(lt, order, bag) && NoCopies(bag) && size >= 1 && (values == [] || |values| == |order|)
    requires i <= |Ordered(Before(lt, order), bag)|
    requires Rest(lt, order, bag, values) == Ordered(Before(lt, order), bag)[i..]
    ensures Shows(lt, order, bag, size, false, PageAt(lt, order, bag, size, false, values),
                  i, Min(i + size, |Ordered(Before(lt, order), bag)|))
  {
    hide Ordered, Rest, PageModels;
    var all := Ordered(Before(lt, order), bag);
    SuffixPage(Before(lt, order), bag, i, size);
    TakeSlice(all, i, size);
  }

  /** A backward page whose rest, read backwards, ends at row j. */
  lemma BackwardShows<V(!new)>(lt: (V, V) -> bool, order: seq<OrderTerm>, bag: seq<Row<V>>, size: nat, values: seq<V>,
                               j: nat)
    requires Walkable(lt, order, bag) && NoCopies(bag) && size >= 1 && (values == [] || |values| == |order|)
    requires j <= |Ordered(Before(lt, order), bag)|
    requires Rest(lt, Flip(order), bag, values) == Reverse(Ordered(Before(lt, order), bag))[|bag| - j..]
    requires |Ordered(Before(lt, order), bag)| == |bag|
    ensures Shows(lt, order, bag, size, true, PageAt(lt, order, bag, size, true, values),
                  if j < size then 0 else j - size, j)
  {
    hide Ordered, Rest, PageModels, Reverse, Take;
    var all := Ordered(Before(lt, order), bag);
    FlippedRows(lt, order, bag);
    SuffixPage(Before(lt, Flip(order)), bag, |bag| - j, size);
    ReverseSlice(all, j, size);
  }

  /** Every page, at any position and in either direction, is such a slice, cut from the end its position
      leaves. */
  lemma PageShows<V(!new)>(lt: (V, V) -> bool, order: seq<OrderTerm>, bag: seq<Row<V>>, size: nat, before: bool,
                           values: seq<V>)
    returns (i: nat, j: nat)
    requires Walkable(lt, order, bag) && NoCopies(bag) && size >= 1 && (values == [] || |values| == |order|)
    ensures Shows(lt, order, bag, size, before, PageAt(lt, order, bag, size, before, values), i, j)
    ensures |Rest(lt, Directed(order, before), bag, values)| == if before then j else |bag| - i
  {
    hide Ordered, Rest, PageAt;
    OrderedLength(lt, order, bag);
    if before {
      FlippedRows(lt, order, bag);
      var q := RestIsSuffix(lt, Flip(order), bag, values);
      j := |bag| - q;
      i := if j < size then 0 else j - size;
      BackwardShows(lt, order, bag, size, values, j);
    } else {
      i := RestIsSuffix(lt, order, bag, values);
      j := Min(i + size, |bag|);
      ForwardShows(lt, order, bag, size, values, i);
    }
  }

  /** The page behind row k, and the page in front of it. */
  lemma TurnsAt<V(!new)>(lt: (V, V) -> bool, order: seq<OrderTerm>, bag: seq<Row<V>>, size: nat, k: nat)
    requires Walkable(lt, order, bag) && NoCopies(bag) && size >= 1 && k < |bag|
    requires |Ordered(Before(lt, order), bag)| == |bag|
    ensures
      var row := Ordered(Before(lt, order), bag)[k];
      && NoNulls(order, row)
      && Shows(lt, order, bag, size, false, PageAt(lt, order, bag, size, false, KeyValues(order, row)),
               k + 1, Min(k + 1 + size, |bag|))
      && Shows(lt, order, bag, size, true, PageAt(lt, order, bag, size, true, KeyValues(order, row)),
               if k < size then 0 else k - size, k)
  {
    hide Ordered, Rest, PageAt, Shows;
    var row := Ordered(Before(lt, order), bag)[k];
    SortedRow(lt, order, bag, k);
    RestAfterRow(lt, order, bag, k + 1, row);
    ForwardShows(lt, order, bag, size, KeyValues(order, row), k + 1);
    BackRest(lt, order, bag, k, row);
    BackwardShows(lt, order, bag, size, KeyValues(order, row), k);
  }

  /** What turning from the slice [i..j] to a neighbour and back needs: the neighbour is empty, or its
      edge leads back to the same rows. */
  ghost predicate Returns<V(!new)>(lt: (V, V) -> bool, order: seq<OrderTerm>, bag: seq<Row<V>>, size: nat, back: bool,
                                   page: Page<V>)
  {
    && page.models != [] && NoNulls(order, Edge(back, page.models))
    && var second := PageAt(lt, order, bag, size, back, KeyValues(order, Edge(back, page.models)));
       second.models != [] ==>
         && NoNulls(order, Edge(!back, second.models))
         && PageAt(lt, order, bag, size, !back, KeyValues(order, Edge(!back, second.models))).models == page.models
  }

  /** The outermost rows of a slice. */
  lemma SliceEdges<V(!new)>(lt: (V, V) -> bool, order: seq<OrderTerm>, bag: seq<Row<V>>, size: nat, before: bool,
                            page: Page<V>, i: nat, j: nat)
    requires Shows(lt, order, bag, size, before, page, i, j) && i < j
    ensures j <= |Ordered(Before(lt, order), bag)| && page.models != []
    ensures page.models[0] == Ordered(Before(lt, order), bag)[i]
    ensures page.models[|page.models| - 1] == Ordered(Before(lt, order), bag)[j - 1]
  {
    hide Ordered, Before;
  }

  /** On from the slice [i..j]: the rows behind j. */
  lemma ForthShows<V(!new)>(lt: (V, V) -> bool, order: seq<OrderTerm>, bag: seq<Row<V>>, size: nat, before: bool,
                            page: Page<V>, i: nat, j: nat)
    requires Walkable(lt, order, bag) && NoCopies(bag) && size >= 1
    requires Shows(lt, order, bag, size, before, page, i, j) && i < j
    ensures page.models != [] && NoNulls(order, Edge(false, page.models)) && j <= |bag|
    ensures Shows(lt, order, bag, size, false,
                  PageAt(lt, order, bag, size, false, KeyValues(order, Edge(false, page.models))),
                  j, Min(j + size, |bag|))
  {
    hide Ordered, Rest, PageAt, Walkable, NoCopies, NoNulls, Before, KeyValues, Shows;
    OrderedLength(lt, order, bag);
    SliceEdges(lt, order, bag, size, before, page, i, j);
    TurnsAt(lt, order, bag, size, j - 1);
  }

  lemma ForthReturns<V(!new)>(lt: (V, V) -> bool, order: seq<OrderTerm>, bag: seq<Row<V>>, size: nat, before: bool,
                              page: Page<V>, i: nat, j: nat)
    requires Walkable(lt, order, bag) && NoCopies(bag) && size >= 1
    requires Shows(lt, order, bag, size, before, page, i, j) && i < j && (before || page.hasMore)
    ensures Returns(lt, order, bag, size, false, page)
    ensures j < |bag| <==> PageAt(lt, order, bag, size, false, KeyValues(order, Edge(false, page.models))).models != []
  {
    hide Ordered, Rest, PageAt, Walkable, NoCopies, NoNulls, Before, KeyValues;
    OrderedLength(lt, order, bag);
    ForthShows(lt, order, bag, size, before, page, i, j);
    if j < |bag| {
      TurnsAt(lt, order, bag, size, j);
    }
  }

  /** Back from the slice [i..j]: the rows in front of i. */
  lemma BackShows<V(!new)>(lt: (V, V) -> bool, order: seq<OrderTerm>, bag: seq<Row<V>>, size: nat, before: bool,
                           page: Page<V>, i: nat, j: nat)
    requires Walkable(lt, order, bag) && NoCopies(bag) && size >= 1
    requires Shows(lt, order, bag, size, before, page, i, j) && i < j
    ensures page.models != [] && NoNulls(order, Edge(true, page.models))
    ensures Shows(lt, order, bag, size, true,
                  PageAt(lt, order, bag, size, true, KeyValues(order, Edge(true, page.models))),
                  if i < size then 0 else i - size, i)
  {
    hide Ordered, Rest, PageAt, Walkable, NoCopies, NoNulls, Before, KeyValues, Shows;
    OrderedLength(lt, order, bag);
    SliceEdges(lt, order, bag, size, before, page, i, j);
    TurnsAt(lt, order, bag, size, i);
  }

  lemma BackReturns<V(!new)>(lt: (V, V) -> bool, order: seq<OrderTerm>, bag: seq<Row<V>>, size: nat, before: bool,
                             page: Page<V>, i: nat, j: nat)
    requires Walkable(lt, order, bag) && NoCopies(bag) && size >= 1
    requires Shows(lt, order, bag, size, before, page, i, j) && i < j && (!before || page.hasMore)
    ensures Returns(lt, order, bag, size, true, page)
    ensures i > 0 <==> PageAt(lt, order, bag, size, true, KeyValues(order, Edge(true, page.models))).models != []
  {
    hide Ordered, Rest, PageAt, Walkable, NoCopies, NoNulls, Before, KeyValues;
    BackShows(lt, order, bag, size, before, page, i, j);
    if i > 0 {
      OrderedLength(lt, order, bag);
      TurnsAt(lt, order, bag, size, i - 1);
    }
  }

  // ---- Over the links of a page ----

  /** `prev` when going back, `next` otherwise. */
  function Turn<V>(terms: seq<SortTerm>, policy: QueryPolicy, back: bool, before: bool, values: seq<V>, page: Page<V>)
    : Option<Cursor<V>>
  {
    var sorts := AppendTieBreaker(terms, policy);
    if back then PrevCursor(sorts, policy, Cursor(before, values), page)
    else NextCursor(sorts, policy, Cursor(before, values), page)
  }

  lemma TurnIs<V>(terms: seq<SortTerm>, policy: QueryPolicy, back: bool, before: bool, values: seq<V>, page: Page<V>)
    requires KeysetColumns(AppendTieBreaker(terms, policy), policy).Some?
    ensures var order := OrderOf(terms, policy);
            var offered := if before == back then page.hasMore else values != [];
            Turn(terms, policy, back, before, values, page)
            == if page.models == [] || !offered || !NoNulls(order, Edge(back, page.models)) then None
               else Some(Cursor(back, KeyValues(order, Edge(back, page.models))))
  {}

  /** The position of a page lies in front of every row of the scope, in the direction the page was asked
      for: nothing is at it or behind it. */
  ghost predicate Outlying<V(!new)>(lt: (V, V) -> bool, bag: seq<Row<V>>, order: seq<OrderTerm>, before: bool,
                                    values: seq<V>)
    requires |values| == |order|
  {
    forall row :: row in bag ==> After(lt, Directed(order, before), values)(row)
  }

  /** A link against the direction of its page, at such a position. */
  ghost predicate LeadsNowhere<V(!new)>(lt: (V, V) -> bool, bag: seq<Row<V>>, order: seq<OrderTerm>, back: bool,
                                        before: bool, values: seq<V>)
  {
    before != back && |values| == |order| && Outlying(lt, bag, order, before, values)
  }

  lemma {:induction false} FilterAll<R(!new)>(keep: R -> bool, s: seq<R>)
    ensures |Filter(keep, s)| == |s| <==> forall x :: x in s ==> keep(x)
  {
    if s != [] {
      assert s == s[..|s| - 1] + [s[|s| - 1]];
      FilterAll(keep, s[..|s| - 1]);
    }
  }

  lemma RestIsAll<V(!new)>(lt: (V, V) -> bool, order: seq<OrderTerm>, bag: seq<Row<V>>, before: bool, values: seq<V>)
    requires |values| == |order| > 0
    ensures |Rest(lt, Directed(order, before), bag, values)| == |bag| <==> Outlying(lt, bag, order, before, values)
  {
    var walk := Directed(order, before);
    var all := Ordered(Before(lt, walk), bag);
    SameMembers(all, bag);
    FilterAll(After(lt, walk, values), all);
  }

  /** The page at a position, when its link is offered. */
  lemma PageTurned<V(!new)>(lt: (V, V) -> bool, order: seq<OrderTerm>, bag: seq<Row<V>>, size: nat, back: bool,
                            before: bool, values: seq<V>)
    requires Walkable(lt, order, bag) && NoCopies(bag) && size >= 1 && (values == [] || |values| == |order|)
    requires
      var page := PageAt(lt, order, bag, size, before, values);
      page.models != [] && (if before == back then page.hasMore else values != [])
    ensures var page := PageAt(lt, order, bag, size, before, values);
            && Returns(lt, order, bag, size, back, page)
            && (PageAt(lt, order, bag, size, back, KeyValues(order, Edge(back, page.models))).models == []
                <==> LeadsNowhere(lt, bag, order, back, before, values))
  {
    hide Ordered, Rest, PageAt, Returns, NoCopies, Walkable, Outlying, After;
    OrderedLength(lt, order, bag);
    var page := PageAt(lt, order, bag, size, before, values);
    var i, j := PageShows(lt, order, bag, size, before, values);
    OrderIsThere(lt, order, bag);
    if values != [] { RestIsAll(lt, order, bag, before, values); }
    if back {
      BackReturns(lt, order, bag, size, before, page, i, j);
    } else {
      ForthReturns(lt, order, bag, size, before, page, i, j);
    }
  }

  lemma OrderIsThere<V(!new)>(lt: (V, V) -> bool, order: seq<OrderTerm>, bag: seq<Row<V>>)
    requires Walkable(lt, order, bag)
    ensures |order| > 0
  {}

  /** Turning a page by one of its links: the page it leads to is empty if and only if the link goes against
      the direction of its page and the position of that page lies in front of every row. Otherwise the
      opposite link of the page reached is there and shows the same rows again. */
  lemma TurnReturns<V(!new)>(lt: (V, V) -> bool, bag: seq<Row<V>>, terms: seq<SortTerm>, policy: QueryPolicy, size: nat,
                             back: bool, before: bool, values: seq<V>, turned: Cursor<V>)
    requires Ready(lt, bag, terms, policy) && Addresses(terms, policy, values) && size >= 1 && NoCopies(bag)
    requires
      var listed := Request(lt, bag, terms, policy, size, before, values);
      listed.Listed? && Turn(terms, policy, back, before, values, listed.page) == Some(turned)
    ensures turned.before == back && Addresses(terms, policy, turned.values)
    ensures
      var nowhere := LeadsNowhere(lt, bag, OrderOf(terms, policy), back, before, values);
      var first := Request(lt, bag, terms, policy, size, before, values);
      var second := Request(lt, bag, terms, policy, size, back, turned.values);
      && second.Listed?
      && (second.page.models == [] <==> nowhere)
      && (!nowhere ==>
            var returned := Turn(terms, policy, !back, back, turned.values, second.page);
            && returned.Some? && returned.value.before == !back && Addresses(terms, policy, returned.value.values)
            && Request(lt, bag, terms, policy, size, !back, returned.value.values).Listed?
            && Request(lt, bag, terms, policy, size, !back, returned.value.values).page.models == first.page.models)
  {
    ReadyWalkable(lt, bag, terms, policy);
    RequestIs(lt, bag, terms, policy, size, before, values);
    hide Request, Ready, Ordered, Rest, PageAt, KeysetColumns, AppendTieBreaker, NextCursor, PrevCursor, NoCopies;
    hide Turn, Walkable, LeadsNowhere;
    var order := OrderOf(terms, policy);
    var page := PageAt(lt, order, bag, size, before, values);
    TurnIs(terms, policy, back, before, values, page);
    PageTurned(lt, order, bag, size, back, before, values);
    RequestIs(lt, bag, terms, policy, size, back, turned.values);
    var second := PageAt(lt, order, bag, size, back, turned.values);
    TurnIs(terms, policy, !back, back, turned.values, second);
    if second.models != [] {
      RequestIs(lt, bag, terms, policy, size, !back, KeyValues(order, Edge(!back, second.models)));
    }
  }

  /** The page at such a position. */
  lemma OutlyingPage<V(!new)>(lt: (V, V) -> bool, order: seq<OrderTerm>, bag: seq<Row<V>>, size: nat, before: bool,
                              values: seq<V>)
    requires Walkable(lt, order, bag) && NoCopies(bag) && size >= 1 && bag != []
    requires |values| == |order| && Outlying(lt, bag, order, before, values)
    ensures PageAt(lt, order, bag, size, before, values).models != []
  {
    hide Ordered, Rest, PageAt, NoCopies, Outlying;
    OrderedLength(lt, order, bag);
    RestIsAll(lt, order, bag, before, values);
    var i, j := PageShows(lt, order, bag, size, before, values);
  }

  /** In a scope that has rows, every such position really gives a page that offers a link to an empty
      one. */
  lemma NowhereIsOffered<V(!new)>(lt: (V, V) -> bool, bag: seq<Row<V>>, terms: seq<SortTerm>, policy: QueryPolicy,
                                  size: nat, before: bool, values: seq<V>) returns (turned: Cursor<V>)
    requires Ready(lt, bag, terms, policy) && size >= 1 && NoCopies(bag) && bag != []
    requires |values| == |OrderOf(terms, policy)| && Outlying(lt, bag, OrderOf(terms, policy), before, values)
    ensures var first := Request(lt, bag, terms, policy, size, before, values);
            && first.Listed? && first.page.models != []
            && Turn(terms, policy, !before, before, values, first.page) == Some(turned)
    ensures var second := Request(lt, bag, terms, policy, size, !before, turned.values);
            second.Listed? && second.page.models == []
  {
    ReadyWalkable(lt, bag, terms, policy);
    RequestIs(lt, bag, terms, policy, size, before, values);
    hide Request, Ready, Ordered, Rest, PageAt, KeysetColumns, AppendTieBreaker, NoCopies, Turn, Walkable, Outlying;
    var order := OrderOf(terms, policy);
    OrderIsThere(lt, order, bag);
    OutlyingPage(lt, order, bag, size, before, values);
    PageTurned(lt, order, bag, size, !before, before, values);
    TurnIs(terms, policy, !before, before, values, PageAt(lt, order, bag, size, before, values));
    turned := Turn(terms, policy, !before, before, values, PageAt(lt, order, bag, size, before, values)).value;
    TurnReturns(lt, bag, terms, policy, size, !before, before, values, turned);
  }

  // ---- A link to an empty page ----

  const BY_ID := [SortTerm("id", false, None)]
  const ID_POLICY := QueryPolicy(map["id" := "id"], BY_ID, "id", false, "id", map["id" := SORTABLE])
  const ID_ORDER := [OrderTerm("id", false)]

  function IdRow(i: int): Row<int> {
    map["id" := i]
  }

  function Less(): (int, int) -> bool {
    (a: int, b: int) => a < b
  }

  /** Two rows, a cursor for one of them, and a filter that keeps the other: `page[before]` at row 2 over
      the scope of row 1 alone, or `page[after]` at row 0. */
  function MintedFor(before: bool): Row<int> {
    IdRow(if before then 2 else 0)
  }

  lemma ById()
    ensures AppendTieBreaker(BY_ID, ID_POLICY) == BY_ID && KeysetColumns(BY_ID, ID_POLICY) == Some(ID_ORDER)
  {
    assert IsTie(BY_ID[0], ID_POLICY);
    assert ResolveAll(BY_ID, ID_POLICY).value == ID_ORDER;
  }

  lemma ByIdIsReady(bag: seq<Row<int>>)
    requires forall row :: row in bag ==> "id" in row && row == IdRow(row["id"])
    ensures Ready(Less(), bag, BY_ID, ID_POLICY) && OrderOf(BY_ID, ID_POLICY) == ID_ORDER
  {
    ById();
    hide KeysetColumns, AppendTieBreaker;
    assert Normalize(BY_ID) == BY_ID;
  }

  lemma RowIsAhead(before: bool)
    ensures Outlying(Less(), [IdRow(1)], ID_ORDER, before, [MintedFor(before)["id"]])
  {
    var walk := Directed(ID_ORDER, before);
    assert walk == [OrderTerm("id", before)];
    assert Key(walk, IdRow(1)) == [Some(1)];
    assert Position([MintedFor(before)["id"]]) == [Some(MintedFor(before)["id"])];
  }

  /** The page of the remaining row, asked for at the cursor of the other, offers a link to an empty
      page. */
  lemma EmptyPage(before: bool) returns (turned: Cursor<int>)
    ensures
      var bag, values := [IdRow(1)], [MintedFor(before)["id"]];
      && MintKey(BY_ID, ID_POLICY, MintedFor(before)) == Some(values)
      && Ready(Less(), bag, BY_ID, ID_POLICY) && Addresses(BY_ID, ID_POLICY, values)
    ensures
      var values := [MintedFor(before)["id"]];
      var first := Request(Less(), [IdRow(1)], BY_ID, ID_POLICY, 1, before, values);
      && first.Listed? && first.page.models != []
      && Turn(BY_ID, ID_POLICY, !before, before, values, first.page) == Some(turned)
    ensures
      var second := Request(Less(), [IdRow(1)], BY_ID, ID_POLICY, 1, !before, turned.values);
      second.Listed? && second.page.models == []
  {
    ById();
    ByIdIsReady([IdRow(1)]);
    RowIsAhead(before);
    assert KeyValues(ID_ORDER, MintedFor(before)) == [MintedFor(before)["id"]];
    hide Ready, Request, Outlying, KeysetColumns, AppendTieBreaker, Turn, Less;
    turned := NowhereIsOffered(Less(), [IdRow(1)], BY_ID, ID_POLICY, 1, before, [MintedFor(before)["id"]]);
  }
}
