/** The whole loop: parse a request, list its page, mint its cursors, build its links, follow one. */
module LinkWalk {
  import opened Wrappers
  import opened SortTerms
  import opened Sorting
  import opened Keyset
  import I = Index
  import Walk
  import Pages
  import PageTurns
  import opened CursorCodec
  import opened Filters
  import opened QueryParams
  import opened Links
  import opened Strings

  type Order = (Value, Value) -> bool

  /** The rows a scope and the filters of a request leave, with the copies a join may make. */
  type Scope = seq<FilterClause> -> seq<Row<Value>>

  datatype Server = Server(api: Api, lt: Order, scope: Scope)

  function Requested(page: PageSpec): I.PageSpec<Value> {
    I.PageSpec(page.number, page.size,
               if page.cursor.None? then None else Some(I.Cursor(page.cursor.value.before, page.cursor.value.values)))
  }

  function CursorOf(server: Server, sorts: seq<SortTerm>, row: Row<Value>): Option<string> {
    Minted(sorts, server.api.policy, row)
  }

  function List(server: Server, query: QuerySpec): I.Listed<Value>
    requires query.page.number >= 1
  {
    I.Listing(server.lt, server.scope(query.filters), query.sorts, server.api.policy, Requested(query.page))
  }

  /** The links of a cursor page. */
  function LinksOf(server: Server, items: seq<Item>, query: QuerySpec, page: I.Page<Value>): Links
    requires query.page.cursor.Some?
  {
    var models := page.models;
    CursorLinks(items, query.page, page.hasMore,
                if models == [] then None else CursorOf(server, query.sorts, models[|models| - 1]),
                if models == [] then None else CursorOf(server, query.sorts, models[0]))
  }

  /** `prev` when going back, `next` otherwise. */
  function Linked(links: Links, back: bool): Option<Link> {
    if back then links.prev else links.next
  }

  // ---- A walk in progress ----

  /** Every row has a cursor that decodes. */
  ghost predicate Mintable(server: Server, filters: seq<FilterClause>, sorts: seq<SortTerm>) {
    && Reads(server.api.codec)
    && forall row :: row in server.scope(filters) ==>
      && KeysetColumns(sorts, server.api.policy).Some?
      && FitsRow(KeysetColumns(sorts, server.api.policy).value, server.api.codec.kinds, row)
      && (CursorOf(server, sorts, row).Some? ==> |CursorOf(server, sorts, row).value| <= MAX_CURSOR_LENGTH)
  }

  /** A request at a position of a collection that cursors can address. */
  ghost predicate Positioned(server: Server, query: QuerySpec, before: bool) {
    && query.page.number == 1 && query.page.size >= 1
    && query.page.cursor.Some? && query.page.cursor.value.before == before
    && AppendTieBreaker(query.sorts, server.api.policy) == query.sorts
    && I.Ready(server.lt, server.scope(query.filters), query.sorts, server.api.policy)
    && Walk.Addresses(query.sorts, server.api.policy, query.page.cursor.value.values)
    && Mintable(server, query.filters, query.sorts)
  }

  ghost predicate Walking(server: Server, items: seq<Item>, before: bool) {
    Query(server.api, items).Ok? && Positioned(server, Query(server.api, items).value, before)
  }

  /** What remains to be walked. */
  ghost function Left(server: Server, query: QuerySpec, before: bool): nat
    requires Positioned(server, query, before)
  {
    |Walk.Remaining(server.lt, server.scope(query.filters), query.sorts, server.api.policy, before,
                    query.page.cursor.value.values)|
  }

  lemma ListIsRequest(server: Server, query: QuerySpec, before: bool)
    requires Positioned(server, query, before)
    ensures List(server, query)
            == Walk.Request(server.lt, server.scope(query.filters), query.sorts, server.api.policy, query.page.size,
                            before, query.page.cursor.value.values)
    ensures List(server, query).Listed?
  {
    hide I.Listing, I.Ready, Mintable, AppendTieBreaker;
    Walk.Step(server.lt, server.scope(query.filters), query.sorts, server.api.policy, query.page.size, before,
              query.page.cursor.value.values);
  }

  function PageOf(server: Server, query: QuerySpec): I.Page<Value>
    requires query.page.number >= 1
  {
    var listed := List(server, query);
    if listed.Listed? then listed.page else I.Page([], false)
  }

  function LinkOf(server: Server, items: seq<Item>, query: QuerySpec, back: bool): Option<Link>
    requires query.page.number >= 1 && query.page.cursor.Some?
  {
    Linked(LinksOf(server, items, query, PageOf(server, query)), back)
  }

  /** The position that link should have. */
  function TurnOf(server: Server, query: QuerySpec, back: bool): Option<I.Cursor<Value>>
    requires query.page.number >= 1 && query.page.cursor.Some?
  {
    var cursor := query.page.cursor.value;
    PageTurns.Turn(query.sorts, server.api.policy, back, cursor.before, cursor.values, PageOf(server, query))
  }

  function EdgeOf(page: I.Page<Value>, back: bool): Option<Row<Value>> {
    if page.models == [] then None else Some(Walk.Edge(back, page.models))
  }

  /** Whether a page offers a link: one in its own direction when the probe was there, one against it
      when it carries a position. */
  predicate Offers(cursor: PageCursor, page: I.Page<Value>, back: bool) {
    if cursor.before == back then page.hasMore else cursor.values != []
  }

  /** A link carries the cursor of the page's edge. */
  lemma LinkIs(server: Server, items: seq<Item>, query: QuerySpec, page: I.Page<Value>, back: bool)
    requires query.page.cursor.Some?
    ensures var edge := EdgeOf(page, back);
            Linked(LinksOf(server, items, query, page), back)
            == if Offers(query.page.cursor.value, page, back) && edge.Some?
               && Usable(CursorOf(server, query.sorts, edge.value))
               then Some(CreateLink(items, query.page,
                                    CursorItem(back, CursorOf(server, query.sorts, edge.value).value)))
               else None
  {
    hide CreateLink, Minted;
  }

  lemma TurnIs(server: Server, query: QuerySpec, page: I.Page<Value>, back: bool, cursor: PageCursor)
    requires AppendTieBreaker(query.sorts, server.api.policy) == query.sorts
    ensures var edge := EdgeOf(page, back);
            PageTurns.Turn(query.sorts, server.api.policy, back, cursor.before, cursor.values, page)
            == if Offers(cursor, page, back) && edge.Some?
               then I.CursorAt(query.sorts, server.api.policy, back, edge.value)
               else None
  {
    hide I.MintKey;
  }

  lemma PageRows(server: Server, query: QuerySpec, before: bool)
    requires Positioned(server, query, before)
    ensures forall row :: row in PageOf(server, query).models ==> row in server.scope(query.filters)
  {
    ListIsRequest(server, query, before);
    var values, bag := query.page.cursor.value.values, server.scope(query.filters);
    I.CursorPage(server.lt, bag, query.sorts, server.api.policy, query.page.size, I.Cursor(before, values));
    hide I.Listing, I.Rest, I.PageModels, I.Oriented, I.Ready, Mintable;
    RestRows(server.lt, bag, query.sorts, server.api.policy, query.page.size, before, values);
  }

  lemma RestRows(lt: Order, bag: seq<Row<Value>>, sorts: seq<SortTerm>, policy: QueryPolicy, size: nat, before: bool,
                 values: seq<Value>)
    requires I.Ready(lt, bag, sorts, policy) && Walk.Addresses(sorts, policy, values)
    ensures var rest := I.Rest(lt, I.Directed(I.OrderOf(sorts, policy), before), bag, values);
            forall row :: row in I.Oriented(I.PageModels(rest, size), before) ==> row in bag
  {
    var order := I.Directed(I.OrderOf(sorts, policy), before);
    I.DirectedTotal(lt, bag, sorts, policy, before);
    I.RestSorted(lt, order, bag, values);
    var rest := I.Rest(lt, order, bag, values);
    hide I.Rest, I.Ready;
    DistinctMembers(Take(rest, size + 1));
    ReverseMultiset(I.PageModels(rest, size));
    SameMembers(Reverse(I.PageModels(rest, size)), I.PageModels(rest, size));
  }

  /** The same request, elsewhere in the collection. */
  function At(query: QuerySpec, raw: string, before: bool, values: seq<Value>): QuerySpec {
    OnPage(query, 1, Some(PageCursor(raw, before, values)))
  }

  /** `next` and `prev` of a page, asked for in either direction: the link is there when the listing has
      a position for it, and it parses to the same request at that position. */
  lemma LinkContinues(server: Server, items: seq<Item>, before: bool, back: bool) returns (raw: string)
    requires Walking(server, items, before)
    ensures
      var query := Query(server.api, items).value;
      var link, turn := LinkOf(server, items, query, back), TurnOf(server, query, back);
      && (link.Some? <==> turn.Some?)
      && (link.Some? ==> ParsesTo(server.api, link.value, At(query, raw, back, turn.value.values)))
  {
    var query := Query(server.api, items).value;
    hide Query, List, I.Ready, Mintable, I.MintKey, CreateLink, LinksOf, PageTurns.Turn, Walk.Addresses, Minted;
    var page := PageOf(server, query);
    LinkIs(server, items, query, page, back);
    TurnIs(server, query, page, back, query.page.cursor.value);
    raw := "";
    if Offers(query.page.cursor.value, page, back) && EdgeOf(page, back).Some? {
      EdgeCursor(server, query, before, back);
      raw := CursorOf(server, query.sorts, EdgeOf(page, back).value).value;
      CursorLinkParses(server.api, items, back, raw);
    }
  }

  /** The cursor of either edge of the page decodes to the edge's sort key. */
  lemma EdgeCursor(server: Server, query: QuerySpec, before: bool, back: bool)
    requires Positioned(server, query, before) && EdgeOf(PageOf(server, query), back).Some?
    ensures var row := EdgeOf(PageOf(server, query), back).value;
            var cursor := CursorOf(server, query.sorts, row);
            && Usable(cursor) && I.MintKey(query.sorts, server.api.policy, row).Some?
            && Decoded(cursor.value, query.sorts, server.api.policy, server.api.codec)
               == I.MintKey(query.sorts, server.api.policy, row)
  {
    hide List, I.MintKey, Mintable, Minted, Decoded;
    PageRows(server, query, before);
    var row := EdgeOf(PageOf(server, query), back).value;
    assert row in PageOf(server, query).models;
    RowCursor(server, query, row);
  }

  lemma RowCursor(server: Server, query: QuerySpec, row: Row<Value>)
    requires Mintable(server, query.filters, query.sorts) && row in server.scope(query.filters)
    requires KeysetColumns(query.sorts, server.api.policy).Some?
    requires NoNulls(KeysetColumns(query.sorts, server.api.policy).value, row)
    ensures var cursor := CursorOf(server, query.sorts, row);
            && Usable(cursor) && I.MintKey(query.sorts, server.api.policy, row).Some?
            && Decoded(cursor.value, query.sorts, server.api.policy, server.api.codec)
               == I.MintKey(query.sorts, server.api.policy, row)
  {
    CursorReads(query.sorts, server.api.policy, server.api.codec, row);
  }

  // ---- The walk over links ----

  /** Where either link of a page leads is again a request at a position. */
  lemma LinkWalks(server: Server, items: seq<Item>, before: bool, back: bool)
    requires Walking(server, items, before)
    ensures
      var query := Query(server.api, items).value;
      var link, turn := LinkOf(server, items, query, back), TurnOf(server, query, back);
      && (link.Some? <==> turn.Some?)
      && (link.Some? ==>
            && Walking(server, link.value, back)
            && var next := Query(server.api, link.value).value;
               next == At(query, next.page.cursor.value.raw, back, turn.value.values))
  {
    var query := Query(server.api, items).value;
    var raw := LinkContinues(server, items, before, back);
    var turn := TurnOf(server, query, back);
    hide Query, LinkOf, I.Ready, Mintable, TurnOf;
    if turn.Some? {
      TurnAddresses(server, query, before, back);
      PositionedAt(server, query, before, raw, back, turn.value.values);
    }
  }

  lemma TurnAddresses(server: Server, query: QuerySpec, before: bool, back: bool)
    requires Positioned(server, query, before) && TurnOf(server, query, back).Some?
    ensures Walk.Addresses(query.sorts, server.api.policy, TurnOf(server, query, back).value.values)
  {
    TurnIs(server, query, PageOf(server, query), back, query.page.cursor.value);
    hide I.Ready, Mintable, List, PageOf, AppendTieBreaker, KeysetColumns, PageTurns.Turn;
  }

  lemma PositionedAt(server: Server, query: QuerySpec, from: bool, raw: string, before: bool, values: seq<Value>)
    requires Positioned(server, query, from) && Walk.Addresses(query.sorts, server.api.policy, values)
    ensures Positioned(server, At(query, raw, before, values), before)
  {
    hide I.Ready, Mintable, AppendTieBreaker, Walk.Addresses;
  }

  /** The link a walker follows leads to a request of this walk with strictly less left. */
  lemma StillWalking(server: Server, items: seq<Item>, before: bool)
    requires Walking(server, items, before)
    ensures
      var query := Query(server.api, items).value;
      var link, onward := LinkOf(server, items, query, before), TurnOf(server, query, before);
      && (link.Some? <==> onward.Some?)
      && (link.Some? ==>
            && Walking(server, link.value, before)
            && var next := Query(server.api, link.value).value;
               next == At(query, next.page.cursor.value.raw, before, onward.value.values)
               && Left(server, next, before) < Left(server, query, before))
  {
    var query := Query(server.api, items).value;
    LinkWalks(server, items, before, before);
    var onward := TurnOf(server, query, before);
    hide Query, LinkOf, I.Ready, Mintable, TurnOf, Walk.Addresses;
    if onward.Some? {
      StepLeft(server, query, before, onward.value);
    }
  }

  lemma StepLeft(server: Server, query: QuerySpec, before: bool, onward: I.Cursor<Value>)
    requires Positioned(server, query, before) && TurnOf(server, query, before) == Some(onward)
    ensures Walk.Addresses(query.sorts, server.api.policy, onward.values)
    ensures forall raw :: Positioned(server, At(query, raw, before, onward.values), before)
                          && Left(server, At(query, raw, before, onward.values), before) < Left(server, query, before)
  {
    ListIsRequest(server, query, before);
    var values, bag, page := query.page.cursor.value.values, server.scope(query.filters), PageOf(server, query);
    TurnIsOnward(query.sorts, server.api.policy, before, values, page);
    WalkShrinks(server.lt, bag, query.sorts, server.api.policy, query.page.size, before, values, onward);
    hide I.Ready, Mintable, List, I.Rest, AppendTieBreaker, KeysetColumns, Walk.Request, PageTurns.Turn, Walk.Onward;
  }

  lemma TurnIsOnward(sorts: seq<SortTerm>, policy: QueryPolicy, before: bool, values: seq<Value>, page: I.Page<Value>)
    ensures PageTurns.Turn(sorts, policy, before, before, values, page)
            == Walk.Onward(sorts, policy, before, values, page)
  {}

  lemma WalkShrinks(lt: Order, bag: seq<Row<Value>>, sorts: seq<SortTerm>, policy: QueryPolicy, size: nat, before: bool,
                    values: seq<Value>, onward: I.Cursor<Value>)
    requires I.Ready(lt, bag, sorts, policy) && Walk.Addresses(sorts, policy, values) && size >= 1
    requires Walk.Request(lt, bag, sorts, policy, size, before, values).Listed?
    requires Walk.Onward(sorts, policy, before, values, Walk.Request(lt, bag, sorts, policy, size, before, values).page)
             == Some(onward)
    ensures Walk.Addresses(sorts, policy, onward.values)
    ensures |Walk.Remaining(lt, bag, sorts, policy, before, onward.values)|
            < |Walk.Remaining(lt, bag, sorts, policy, before, values)|
  {
    hide I.Ready, I.Rest, AppendTieBreaker, KeysetColumns, Walk.Request, Walk.Onward, I.Oriented, Distinct;
    Walk.Step(lt, bag, sorts, policy, size, before, values);
  }

  /** Follows the links until there is none, putting the pages in reading order. */
  ghost function Follow(server: Server, items: seq<Item>, before: bool): seq<Row<Value>>
    requires Walking(server, items, before)
    decreases Left(server, Query(server.api, items).value, before)
  {
    StillWalking(server, items, before);
    var query := Query(server.api, items).value;
    var link := LinkOf(server, items, query, before);
    var models := PageOf(server, query).models;
    if link.None? then models
    else if before then Follow(server, link.value, before) + models
    else models + Follow(server, link.value, before)
  }

  /** Following links is the walk over positions. */
  lemma {:induction false} FollowIsWalk(server: Server, items: seq<Item>, before: bool)
    requires Walking(server, items, before)
    ensures var query := Query(server.api, items).value;
            Follow(server, items, before)
            == Walk.WalkFrom(server.lt, server.scope(query.filters), query.sorts, server.api.policy, query.page.size,
                             before, query.page.cursor.value.values)
    decreases Left(server, Query(server.api, items).value, before)
  {
    StillWalking(server, items, before);
    var query := Query(server.api, items).value;
    ListIsRequest(server, query, before);
    var link := LinkOf(server, items, query, before);
    if link.Some? {
      FollowIsWalk(server, link.value, before);
    }
  }

  // ---- From an accepted request ----

  lemma {:induction false} ReadSorts(api: Api, items: seq<Item>)
    requires ReadAll(api, items).Ok? && ReadAll(api, items).value.sorts.Some?
    ensures exists raw :: ParseSort(raw, api.policy) == ReadAll(api, items).value.sorts
    decreases |items|
  {
    hide ParseSort, ParseInclude;
    var init := items[..|items| - 1];
    if ReadAll(api, init).value.sorts.Some? {
      ReadSorts(api, init);
    } else {
      assert ParseSort(items[|items| - 1].1, api.policy) == ReadAll(api, items).value.sorts;
    }
  }

  /** The sorts of an accepted request already are effective. */
  lemma AcceptedSorts(api: Api, items: seq<Item>)
    requires Query(api, items).Ok? && OverridesAgree(api.policy.defaultSort, api.policy)
    ensures AppendTieBreaker(Query(api, items).value.sorts, api.policy) == Query(api, items).value.sorts
  {
    var read := ReadAll(api, items).value;
    SortsOf(api, items);
    if read.sorts.Some? && read.sorts.value != [] {
      ReadSorts(api, items);
      var raw :| ParseSort(raw, api.policy) == read.sorts;
      SortIsEffective(raw, api.policy);
      AppendKeeps(read.sorts.value, api.policy);
    } else {
      AppendIdempotent(api.policy.defaultSort, api.policy);
    }
  }

  lemma SortsOf(api: Api, items: seq<Item>)
    requires Query(api, items).Ok?
    ensures Query(api, items).value.sorts == EffectiveSorts(api, ReadAll(api, items).value)
  {
    hide ReadAll, EffectiveSorts, Decoded;
  }

  lemma DecodedCount(raw: string, sorts: seq<SortTerm>, policy: QueryPolicy, codec: Codec)
    requires Decoded(raw, sorts, policy, codec).Some?
    ensures KeysetColumns(sorts, policy).Some?
    ensures var values := Decoded(raw, sorts, policy, codec).value;
            values == [] || |values| == |KeysetColumns(sorts, policy).value|
  {
    hide Opened, KeysetColumns;
  }

  lemma AcceptedWalks(server: Server, items: seq<Item>)
    requires Query(server.api, items).Ok? && Query(server.api, items).value.page.cursor.Some?
    requires OverridesAgree(server.api.policy.defaultSort, server.api.policy)
    requires
      var query := Query(server.api, items).value;
      && I.Ready(server.lt, server.scope(query.filters), query.sorts, server.api.policy)
      && Mintable(server, query.filters, query.sorts)
    ensures Walking(server, items, Query(server.api, items).value.page.cursor.value.before)
  {
    AcceptedSorts(server.api, items);
    AcceptedSize(server.api, items);
    AcceptedCursor(server.api, items);
    hide Query, I.Ready, Mintable, AppendTieBreaker, KeysetColumns, Decoded;
    var query := Query(server.api, items).value;
    DecodedCount(query.page.cursor.value.raw, query.sorts, server.api.policy, server.api.codec);
  }

  /** A client whose accepted request is at `page[after]=`, and who follows `next`, or at
      `page[before]=`, following `prev`, reads the whole filtered collection in order, every resource
      once, until the link is null. Each of the requests on the way is parsed from the link before. */
  lemma LinksWalkTheCollection(server: Server, items: seq<Item>)
    requires Query(server.api, items).Ok?
    requires var cursor := Query(server.api, items).value.page.cursor; cursor.Some? && cursor.value.values == []
    requires OverridesAgree(server.api.policy.defaultSort, server.api.policy)
    requires
      var query := Query(server.api, items).value;
      && I.Ready(server.lt, server.scope(query.filters), query.sorts, server.api.policy)
      && Mintable(server, query.filters, query.sorts)
    ensures
      var query := Query(server.api, items).value;
      && Walking(server, items, query.page.cursor.value.before)
      && Follow(server, items, query.page.cursor.value.before)
         == Walk.Collection(server.lt, server.scope(query.filters), query.sorts, server.api.policy)
  {
    hide I.Ready, Mintable, Follow, Walk.WalkFrom, Walk.Collection, Query;
    var query := Query(server.api, items).value;
    AcceptedWalks(server, items);
    FollowIsWalk(server, items, query.page.cursor.value.before);
    Walk.WalkComplete(server.lt, server.scope(query.filters), query.sorts, server.api.policy, query.page.size);
  }

  // ---- Every link of a page, and back ----

  /** All five links of a page in cursor mode, asked for in either direction, parse back: to the request
      itself, to either end, and to the positions the listing has before and behind the page; `prev`
      and `next` are there exactly when the listing has such a position. */
  lemma CursorPageLinksParse(server: Server, items: seq<Item>, before: bool) returns (prev: string, next: string)
    requires Walking(server, items, before)
    ensures
      var query := Query(server.api, items).value;
      var links := LinksOf(server, items, query, PageOf(server, query));
      var behind, ahead := TurnOf(server, query, true), TurnOf(server, query, false);
      && ParsesTo(server.api, links.self, query)
      && ParsesTo(server.api, links.first, At(query, "", false, []))
      && links.last.Some? && ParsesTo(server.api, links.last.value, At(query, "", true, []))
      && (links.prev.Some? <==> behind.Some?)
      && (links.prev.Some? ==> ParsesTo(server.api, links.prev.value, At(query, prev, true, behind.value.values)))
      && (links.next.Some? <==> ahead.Some?)
      && (links.next.Some? ==> ParsesTo(server.api, links.next.value, At(query, next, false, ahead.value.values)))
  {
    prev := LinkContinues(server, items, before, true);
    next := LinkContinues(server, items, before, false);
    EndLinksParse(server, items, PageOf(server, Query(server.api, items).value));
    hide Query, Positioned, List, LinksOf, TurnOf, PageOf, ParsesTo;
  }

  lemma EndLinksParse(server: Server, items: seq<Item>, page: I.Page<Value>)
    requires Query(server.api, items).Ok? && Query(server.api, items).value.page.cursor.Some?
    ensures
      var query := Query(server.api, items).value;
      var links := LinksOf(server, items, query, page);
      && ParsesTo(server.api, links.self, query)
      && ParsesTo(server.api, links.first, At(query, "", false, []))
      && links.last.Some? && ParsesTo(server.api, links.last.value, At(query, "", true, []))
  {
    hide Query, CursorLinks, ParsesTo, Minted, OnPage;
    var query, models := Query(server.api, items).value, page.models;
    CursorLinksParse(server.api, items, page.hasMore,
                     if models == [] then None else CursorOf(server, query.sorts, models[|models| - 1]),
                     if models == [] then None else CursorOf(server, query.sorts, models[0]));
  }

  /** The link goes against the direction of its page, and the position of that page lies in front of every
      row the filters leave, as when its cursor was minted under other filters. */
  ghost predicate LeadsNowhere(server: Server, query: QuerySpec, back: bool)
    requires query.page.cursor.Some? && Walk.Addresses(query.sorts, server.api.policy, query.page.cursor.value.values)
  {
    var cursor := query.page.cursor.value;
    PageTurns.LeadsNowhere(server.lt, server.scope(query.filters), I.OrderOf(query.sorts, server.api.policy), back,
                           cursor.before, cursor.values)
  }

  /** Over a scope without copies, following `next` and then `prev`, or `prev` and then `next`, leads to
      a request whose page holds the same rows as the page the client came from, whichever way that
      page was asked for; unless the first link leads nowhere, which are exactly the links to an empty
      page. */
  lemma TurningReturns(server: Server, items: seq<Item>, before: bool, back: bool)
    requires Walking(server, items, before)
    requires
      var query := Query(server.api, items).value;
      Pages.NoCopies(server.scope(query.filters)) && LinkOf(server, items, query, back).Some?
    ensures
      var query := Query(server.api, items).value;
      var link := LinkOf(server, items, query, back).value;
      && Walking(server, link, back)
      && var second := Query(server.api, link).value;
         && (PageOf(server, second).models == [] <==> LeadsNowhere(server, query, back))
         && (!LeadsNowhere(server, query, back) ==>
               var returned := LinkOf(server, link, second, !back);
               && returned.Some? && Walking(server, returned.value, !back)
               && PageOf(server, Query(server.api, returned.value).value).models == PageOf(server, query).models)
  {
    var query := Query(server.api, items).value;
    LinkWalks(server, items, before, back);
    var link, turn := LinkOf(server, items, query, back).value, TurnOf(server, query, back).value;
    var second := Query(server.api, link).value;
    LinkWalks(server, link, back, !back);
    hide Query, LinkOf, I.Ready, Mintable, List, Pages.NoCopies, Walk.Request, Walk.Addresses, PageTurns.Turn;
    hide PageTurns.LeadsNowhere;
    ListIsRequest(server, query, before);
    ListIsRequest(server, second, back);
    PageTurns.TurnReturns(server.lt, server.scope(query.filters), query.sorts, server.api.policy, query.page.size, back,
                          before, query.page.cursor.value.values, turn);
    if !LeadsNowhere(server, query, back) {
      ListIsRequest(server, Query(server.api, LinkOf(server, link, second, !back).value).value, !back);
    }
  }

  // ---- Offset pages ----

  /** The links of a numbered page; the count is only paid for when totals are asked for. */
  function OffsetLinksOf(server: Server, items: seq<Item>, query: QuerySpec): Links
    requires query.page.number >= 1 && query.page.size >= 1
  {
    OffsetLinks(items, query.page, if query.page.totals then Some(|server.scope(query.filters)|) else None,
                Some(PageOf(server, query).hasMore))
  }

  /** On every accepted numbered page of a collection of at most 2^53 rows, `next` is there exactly when
      rows remain beyond the page, totals or not, and every link parses back to the same request on
      the page it stands for. */
  lemma NumberedLinksParse(server: Server, items: seq<Item>)
    requires Query(server.api, items).Ok? && Query(server.api, items).value.page.cursor.None?
    requires Constructible(server.api.policy)
    requires |server.scope(Query(server.api, items).value.filters)| <= MAX_PAGE_OFFSET + 1
    ensures var page := Query(server.api, items).value.page; page.number >= 1 && page.size >= 1
    ensures
      var query := Query(server.api, items).value;
      var links := OffsetLinksOf(server, items, query);
      var last := I.LastPage(|server.scope(query.filters)|, query.page.size);
      && LinksParse(server.api, query, links, if query.page.totals then Some(last) else None)
      && (links.next.Some? <==> query.page.number < last)
  {
    AcceptedSize(server.api, items);
    AcceptedRange(server.api, items);
    ProbeIsExact(server, items);
    hide Query, LinksParse, I.LastPage, PageOf, OffsetLinks, OnPage, InRange;
    var query := Query(server.api, items).value;
    var bag := server.scope(query.filters);
    var total, hasMore := if query.page.totals then Some(|bag|) else None, PageOf(server, query).hasMore;
    OffsetLinksParse(server.api, items, total, Some(hasMore), |bag|);
    NextIsOffered(items, query.page, total, hasMore, |bag|);
  }

  /** `next` of an offset page whose probe is right, whether the total is known or not. */
  lemma NextIsOffered(items: seq<Item>, page: PageSpec, total: Option<nat>, hasMore: bool, rows: nat)
    requires page.size >= 1 && page.number >= 1 && (total.Some? ==> total.value == rows)
    requires hasMore <==> page.number < I.LastPage(rows, page.size)
    ensures OffsetLinks(items, page, total, Some(hasMore)).next.Some? <==> hasMore
  {
    hide I.LastPage, CreateLink;
  }

  /** The sorts of an accepted request resolve, also those a cursor could not address. */
  lemma AcceptedApplies(api: Api, items: seq<Item>)
    requires Query(api, items).Ok? && Constructible(api.policy)
    ensures ApplySort(Query(api, items).value.sorts, api.policy).Some?
  {
    var read := ReadAll(api, items).value;
    SortsOf(api, items);
    if read.sorts.Some? && read.sorts.value != [] {
      ReadSorts(api, items);
      var raw :| ParseSort(raw, api.policy) == read.sorts;
      var terms := Terms(SplitComma(raw), api.policy).value;
      TermsResolve(SplitComma(raw), api.policy);
      AllowedApplies(terms, api.policy);
    } else {
      AllowedApplies(api.policy.defaultSort, api.policy);
    }
  }

  lemma {:induction false} TermsResolve(tokens: seq<string>, policy: QueryPolicy)
    requires Terms(tokens, policy).Some?
    ensures Resolvable(Terms(tokens, policy).value, policy)
    decreases |tokens|
  {
    if tokens != [] { TermsResolve(tokens[..|tokens| - 1], policy); }
  }

  /** The probe row is there exactly when rows remain beyond the page. */
  lemma ProbeIsExact(server: Server, items: seq<Item>)
    requires Query(server.api, items).Ok? && Query(server.api, items).value.page.cursor.None?
    requires Constructible(server.api.policy)
    ensures
      var query := Query(server.api, items).value;
      var rows, page := |server.scope(query.filters)|, query.page;
      && page.number >= 1 && page.size >= 1
      && (PageOf(server, query).hasMore <==> page.number < I.LastPage(rows, page.size))
      && (PageOf(server, query).hasMore <==> page.number * page.size < rows)
  {
    AcceptedApplies(server.api, items);
    AcceptedSize(server.api, items);
    AcceptedRange(server.api, items);
    hide Query, I.LastPage, AppendTieBreaker, ApplySort, Constructible, I.Listing;
    var query := Query(server.api, items).value;
    var bag, n, size := server.scope(query.filters), query.page.number, query.page.size;
    Pages.ProbeAgreesWithCount(server.lt, bag, query.sorts, server.api.policy, size, n);
    Pages.PagesCover(|bag|, size, n);
    I.TimesIsProduct(n, size);
  }
}
