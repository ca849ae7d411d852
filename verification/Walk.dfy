/** Whole walks over a collection: following `next` from the start, `prev` from the end, and
    counting pages by number. */
module Walk {
  import opened Wrappers
  import opened Sorting
  import opened SortTerms
  import opened Keyset
  import opened Index

  /** The collection a walk must return: every distinct row, in sort order. */
  function Collection<V(==)>(lt: (V, V) -> bool, bag: seq<Row<V>>, terms: seq<SortTerm>,
                             policy: QueryPolicy): seq<Row<V>>
    requires KeysetColumns(AppendTieBreaker(terms, policy), policy).Some?
  {
    Distinct(Ordered(Before(lt, OrderOf(terms, policy)), bag))
  }

  ghost predicate Addresses<V>(terms: seq<SortTerm>, policy: QueryPolicy, values: seq<V>) {
    && KeysetColumns(AppendTieBreaker(terms, policy), policy).Some?
    && (values == [] || |values| == |OrderOf(terms, policy)|)
  }

  /** One request in cursor mode. */
  function Request<V(==)>(lt: (V, V) -> bool, bag: seq<Row<V>>, terms: seq<SortTerm>, policy: QueryPolicy,
                          size: nat, before: bool, values: seq<V>): Listed<V>
  {
    Listing(lt, bag, AppendTieBreaker(terms, policy), policy, PageSpec(1, size, Some(Cursor(before, values))))
  }

  /** The link a walker follows: `next` forwards, `prev` backwards. */
  function Onward<V>(terms: seq<SortTerm>, policy: QueryPolicy, before: bool, values: seq<V>,
                     page: Page<V>): Option<Cursor<V>> {
    var sorts := AppendTieBreaker(terms, policy);
    if before then PrevCursor(sorts, policy, Cursor(before, values), page)
    else NextCursor(sorts, policy, Cursor(before, values), page)
  }

  ghost function Remaining<V>(lt: (V, V) -> bool, bag: seq<Row<V>>, terms: seq<SortTerm>, policy: QueryPolicy,
                                  before: bool, values: seq<V>): seq<Row<V>>
    requires Addresses(terms, policy, values)
  {
    Rest(lt, Directed(OrderOf(terms, policy), before), bag, values)
  }

  // ---- The same request, stated on the sorted rows ----

  /** What `Ready` gives for a resolved order. */
  ghost predicate Walkable<V(!new)>(lt: (V, V) -> bool, order: seq<OrderTerm>, bag: seq<Row<V>>) {
    && StrictTotal(lt) && 0 < |order|
    && TotalOn(Before(lt, order), bag)
    && TotalOn(Before(lt, Flip(order)), bag)
    && (forall row :: row in bag ==> NoNulls(order, row))
  }

  /** The row a walker's link continues from: the last of a forward page, the first of a
      backward one. */
  function Edge<V>(before: bool, models: seq<Row<V>>): Row<V>
    requires models != []
  {
    if before then models[0] else models[|models| - 1]
  }

  function PageAt<V(==)>(lt: (V, V) -> bool, order: seq<OrderTerm>, bag: seq<Row<V>>, size: nat, before: bool,
                         values: seq<V>): Page<V>
    requires values == [] || |values| == |order|
  {
    var rest := Rest(lt, Directed(order, before), bag, values);
    Page(Oriented(PageModels(rest, size), before), |rest| > size)
  }

  function OnwardAt<V>(order: seq<OrderTerm>, before: bool, page: Page<V>): Option<Cursor<V>> {
    if page.models == [] || !page.hasMore || !NoNulls(order, Edge(before, page.models)) then None
    else Some(Cursor(before, KeyValues(order, Edge(before, page.models))))
  }

  lemma ReadyWalkable<V(!new)>(lt: (V, V) -> bool, bag: seq<Row<V>>, terms: seq<SortTerm>, policy: QueryPolicy)
    requires Ready(lt, bag, terms, policy)
    ensures Walkable(lt, OrderOf(terms, policy), bag)
  {
    DirectedTotal(lt, bag, terms, policy, false);
    DirectedTotal(lt, bag, terms, policy, true);
  }

  lemma OnwardIs<V>(terms: seq<SortTerm>, policy: QueryPolicy, before: bool, values: seq<V>, page: Page<V>)
    requires KeysetColumns(AppendTieBreaker(terms, policy), policy).Some?
    ensures Onward(terms, policy, before, values, page) == OnwardAt(OrderOf(terms, policy), before, page)
  {}

  /** A request in cursor mode returns the page at its position and the link onward from it. */
  lemma RequestIs<V(!new)>(lt: (V, V) -> bool, bag: seq<Row<V>>, terms: seq<SortTerm>, policy: QueryPolicy,
                           size: nat, before: bool, values: seq<V>)
    requires Ready(lt, bag, terms, policy) && Addresses(terms, policy, values)
    ensures var page := PageAt(lt, OrderOf(terms, policy), bag, size, before, values);
            && Request(lt, bag, terms, policy, size, before, values) == Listed(page)
            && Onward(terms, policy, before, values, page) == OnwardAt(OrderOf(terms, policy), before, page)
  {
    CursorPage(lt, bag, terms, policy, size, Cursor(before, values));
    OnwardIs(terms, policy, before, values, PageAt(lt, OrderOf(terms, policy), bag, size, before, values));
  }

  // ---- One step ----

  lemma StepModels<V(!new)>(lt: (V, V) -> bool, order: seq<OrderTerm>, bag: seq<Row<V>>, size: nat, before: bool,
                            values: seq<V>)
    requires Walkable(lt, order, bag) && size >= 1
    requires values == [] || |values| == |order|
    ensures var rest := Rest(lt, Directed(order, before), bag, values);
            var models := PageModels(rest, size);
            if rest == [] then models == []
            else
              && models != [] && NoNulls(order, models[|models| - 1])
              && var beyond := Rest(lt, Directed(order, before), bag, KeyValues(order, models[|models| - 1]));
              && |beyond| < |rest|
              && Distinct(rest) == models + Distinct(beyond)
              && (|rest| <= size ==> models == Distinct(rest))
  {
    var walk := Directed(order, before);
    if Rest(lt, walk, bag, values) != [] {
      forall row | row in bag ensures NoNulls(walk, row) {}
      var last := PageAdvance(lt, walk, bag, values, size);
      assert KeyValues(walk, last) == KeyValues(order, last);
    }
  }

  /** What one request does to a walk: it returns a piece of the remaining distinct rows, and its
      link is null exactly when the page holds all of them, or continues at a position with
      strictly fewer rows beyond it. */
  ghost predicate Advances<V(!new)>(lt: (V, V) -> bool, order: seq<OrderTerm>, bag: seq<Row<V>>, size: nat,
                                    before: bool, values: seq<V>, page: Page<V>, onward: Option<Cursor<V>>)
    requires values == [] || |values| == |order|
  {
    var rest := Rest(lt, Directed(order, before), bag, values);
    if |rest| <= size then onward.None? && page.models == Oriented(Distinct(rest), before)
    else
      && onward.Some? && onward.value.before == before && |onward.value.values| == |order|
      && var beyond := Rest(lt, Directed(order, before), bag, onward.value.values);
      && |beyond| < |rest|
      && Distinct(rest) == Oriented(page.models, before) + Distinct(beyond)
  }

  lemma PageAdvances<V(!new)>(lt: (V, V) -> bool, order: seq<OrderTerm>, bag: seq<Row<V>>, size: nat, before: bool,
                              values: seq<V>)
    requires Walkable(lt, order, bag) && size >= 1
    requires values == [] || |values| == |order|
    ensures var page := PageAt(lt, order, bag, size, before, values);
            Advances(lt, order, bag, size, before, values, page, OnwardAt(order, before, page))
  {
    StepModels(lt, order, bag, size, before, values);
    OrientedEdge(before, PageModels(Rest(lt, Directed(order, before), bag, values), size));
  }

  lemma OrientedEdge<V>(before: bool, models: seq<Row<V>>)
    ensures Oriented(Oriented(models, before), before) == models
    ensures models != [] ==>
            Oriented(models, before) != [] && Edge(before, Oriented(models, before)) == models[|models| - 1]
  {
    ReverseTwice(models);
  }

  lemma Step<V(!new)>(lt: (V, V) -> bool, bag: seq<Row<V>>, terms: seq<SortTerm>, policy: QueryPolicy,
                      size: nat, before: bool, values: seq<V>)
    requires Ready(lt, bag, terms, policy) && Addresses(terms, policy, values) && size >= 1
    ensures var listed := Request(lt, bag, terms, policy, size, before, values);
            && listed.Listed?
            && Advances(lt, OrderOf(terms, policy), bag, size, before, values, listed.page,
                        Onward(terms, policy, before, values, listed.page))
  {
    ReadyWalkable(lt, bag, terms, policy);
    RequestIs(lt, bag, terms, policy, size, before, values);
    PageAdvances(lt, OrderOf(terms, policy), bag, size, before, values);
  }

  lemma {:induction false} ReverseTwice<R>(s: seq<R>)
    ensures Reverse(Reverse(s)) == s
  {}

  /** Issues requests until the link is null, putting the pages in reading order. */
  ghost function WalkFrom<V(!new)>(lt: (V, V) -> bool, bag: seq<Row<V>>, terms: seq<SortTerm>, policy: QueryPolicy,
                                   size: nat, before: bool, values: seq<V>): seq<Row<V>>
    requires Ready(lt, bag, terms, policy) && Addresses(terms, policy, values) && size >= 1
    decreases |Remaining(lt, bag, terms, policy, before, values)|
  {
    Step(lt, bag, terms, policy, size, before, values);
    var page := Request(lt, bag, terms, policy, size, before, values).page;
    var onward := Onward(terms, policy, before, values, page);
    if onward.None? then page.models
    else
      var further := WalkFrom(lt, bag, terms, policy, size, before, onward.value.values);
      if before then further + page.models else page.models + further
  }

  /** A walk from any position returns every distinct row beyond it, once, in sort order. */
  lemma {:induction false} WalkReturnsRest<V(!new)>(
    lt: (V, V) -> bool, bag: seq<Row<V>>, terms: seq<SortTerm>, policy: QueryPolicy, size: nat, before: bool,
    values: seq<V>)
    requires Ready(lt, bag, terms, policy) && Addresses(terms, policy, values) && size >= 1
    ensures WalkFrom(lt, bag, terms, policy, size, before, values)
            == Oriented(Distinct(Remaining(lt, bag, terms, policy, before, values)), before)
    decreases |Remaining(lt, bag, terms, policy, before, values)|
  {
    Step(lt, bag, terms, policy, size, before, values);
    var page := Request(lt, bag, terms, policy, size, before, values).page;
    var onward := Onward(terms, policy, before, values, page);
    if onward.Some? {
      WalkReturnsRest(lt, bag, terms, policy, size, before, onward.value.values);
      var beyond := Distinct(Remaining(lt, bag, terms, policy, before, onward.value.values));
      if before {
        ReverseAppend(Reverse(page.models), beyond);
        ReverseTwice(page.models);
      }
    }
  }

  /** Following `next` from `page[after]=` returns the collection; so does following `prev` from
      `page[before]=`. This holds for every page size and every scope, also one that returns a
      resource several times. */
  lemma WalkComplete<V(!new)>(lt: (V, V) -> bool, bag: seq<Row<V>>, terms: seq<SortTerm>, policy: QueryPolicy,
                              size: nat)
    requires Ready(lt, bag, terms, policy) && size >= 1
    ensures WalkFrom(lt, bag, terms, policy, size, false, []) == Collection(lt, bag, terms, policy)
    ensures WalkFrom(lt, bag, terms, policy, size, true, []) == Collection(lt, bag, terms, policy)
  {
    var order := OrderOf(terms, policy);
    var forward, backward := Before(lt, order), Before(lt, Flip(order));
    WalkReturnsRest(lt, bag, terms, policy, size, false, []);
    WalkReturnsRest(lt, bag, terms, policy, size, true, []);
    DirectedTotal(lt, bag, terms, policy, false);
    forall x, y ensures backward(x, y) <==> forward(y, x) { BeforeFlip(lt, order, x, y); }
    OrderedFlip(forward, backward, bag);
    RestSorted(lt, order, bag, []);
    DistinctReverse(forward, Ordered(forward, bag));
    ReverseTwice(Collection(lt, bag, terms, policy));
  }

  /** What "the collection" means: exactly the rows of the bag, strictly increasing. */
  lemma CollectionIs<V(!new)>(lt: (V, V) -> bool, bag: seq<Row<V>>, terms: seq<SortTerm>, policy: QueryPolicy)
    requires Ready(lt, bag, terms, policy)
    ensures var c := Collection(lt, bag, terms, policy);
            && (forall row :: row in c <==> row in bag)
            && (forall i, j :: 0 <= i < j < |c| ==> Before(lt, OrderOf(terms, policy))(c[i], c[j]) && c[i] != c[j])
  {
    var order := OrderOf(terms, policy);
    DirectedTotal(lt, bag, terms, policy, false);
    RestSorted(lt, order, bag, []);
    var all := Ordered(Before(lt, order), bag);
    SameMembers(all, bag);
    DistinctMembers(all);
    DistinctStrict(Before(lt, order), all);
    DistinctUnique(all);
  }
}
