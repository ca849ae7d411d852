/** Pagination links: built from the request's own parameters, and what they parse back to. */
module Links {
  import opened Wrappers
  import opened Arithmetic
  import opened SortTerms
  import opened Sorting
  import I = Index
  import Decimal
  import opened CursorCodec
  import opened QueryParams

  /** The query string of a link, as its parameters. */
  type Link = seq<Item>

  datatype Links = Links(self: Link, first: Link, prev: Option<Link>, next: Option<Link>, last: Option<Link>)

  function Preserves(): Item -> bool {
    (item: Item) => !IsPageParameter(item.0)
  }

  function CreateLink(items: seq<Item>, page: PageSpec, pageItem: Item): Link {
    Filter(Preserves(), items) + (if page.totals then [("page[totals]", "true")] else [])
    + [pageItem] + [("page[size]", Decimal.Numeral(page.size))]
  }

  function NumberItem(number: nat): Item {
    ("page[number]", Decimal.Numeral(number))
  }

  function CursorItem(before: bool, raw: string): Item {
    (if before then "page[before]" else "page[after]", raw)
  }

  function OffsetLinks(items: seq<Item>, page: PageSpec, total: Option<nat>, hasMore: Option<bool>): Links
    requires page.size >= 1 && page.number >= 1
  {
    var countMore := total.Some? && page.number < I.LastPage(total.value, page.size);
    var more := if hasMore.None? then countMore else hasMore.value || countMore;
    Links(CreateLink(items, page, NumberItem(page.number)),
          CreateLink(items, page, NumberItem(1)),
          if page.number > 1 then Some(CreateLink(items, page, NumberItem(page.number - 1))) else None,
          if more then Some(CreateLink(items, page, NumberItem(page.number + 1))) else None,
          if total.None? then None else Some(CreateLink(items, page, NumberItem(I.LastPage(total.value, page.size)))))
  }

  predicate Usable(cursor: Option<string>) {
    cursor.Some? && cursor.value != ""
  }

  function CursorLinks(items: seq<Item>, page: PageSpec, hasMore: bool, next: Option<string>,
                       prev: Option<string>): Links
    requires page.cursor.Some?
  {
    var cursor := page.cursor.value;
    var positioned := cursor.values != [];
    var emitNext := if cursor.before then positioned else hasMore;
    var emitPrev := if cursor.before then hasMore else positioned;
    Links(CreateLink(items, page, CursorItem(cursor.before, cursor.raw)),
          CreateLink(items, page, CursorItem(false, "")),
          if emitPrev && Usable(prev) then Some(CreateLink(items, page, CursorItem(true, prev.value))) else None,
          if emitNext && Usable(next) then Some(CreateLink(items, page, CursorItem(false, next.value))) else None,
          Some(CreateLink(items, page, CursorItem(true, ""))))
  }

  // ---- Reading a link ----

  /** What was read, without the page parameters. */
  function Unpaged(read: Read): Read {
    read.(number := None, size := None, totals := None, cursor := None)
  }

  lemma PageIsNext(api: Api, read: Read, item: Item)
    requires item.0 != "" && item.0[0] == 'p'
    ensures Next(api, read, item) == NextPage(read, item)
  {
    assert "filter"[0] == 'f' && "sort"[0] == 's' && "include"[0] == 'i';
  }

  lemma NextUnpaged(api: Api, read: Read, item: Item)
    requires Next(api, read, item).Ok?
    ensures if IsPageParameter(item.0) then Unpaged(Next(api, read, item).value) == Unpaged(read)
            else Next(api, Unpaged(read), item) == Ok(Unpaged(Next(api, read, item).value))
  {
    hide ParseSort, ParseInclude, Decimal.PositiveInteger;
    assert "filter"[0] == 'f' && "sort"[0] == 's' && "include"[0] == 'i' && "page"[0] == 'p' && "page["[0] == 'p';
    if IsPageParameter(item.0) {
      assert item.0[0] == 'p';
      PageIsNext(api, read, item);
    }
  }

  lemma {:induction false} PreservedRead(api: Api, items: seq<Item>)
    requires ReadAll(api, items).Ok?
    ensures ReadAll(api, Filter(Preserves(), items)) == Ok(Unpaged(ReadAll(api, items).value))
    decreases |items|
  {
    if items != [] {
      var init, item := items[..|items| - 1], items[|items| - 1];
      PreservedRead(api, init);
      NextUnpaged(api, ReadAll(api, init).value, item);
      var kept := Filter(Preserves(), init);
      if Preserves()(item) {
        assert (kept + [item])[..|kept|] == kept;
      }
    }
  }

  lemma ReadOneMore(api: Api, items: seq<Item>, item: Item)
    requires ReadAll(api, items).Ok?
    ensures ReadAll(api, items + [item]) == Next(api, ReadAll(api, items).value, item)
  {
    assert (items + [item])[..|items|] == items;
  }

  lemma TotalsItem(api: Api, read: Read)
    requires read.totals.None?
    ensures Next(api, read, ("page[totals]", "true")) == Ok(read.(totals := Some(true)))
  {
    PageIsNext(api, read, ("page[totals]", "true"));
  }

  lemma SizeItem(api: Api, read: Read, size: nat)
    requires read.size.None? && 1 <= size <= MAX_PAGE_SIZE
    ensures Next(api, read, ("page[size]", Decimal.Numeral(size))) == Ok(read.(size := Some(size)))
  {
    hide Decimal.PositiveInteger, Decimal.Numeral;
    Decimal.PositiveIntegerReads(size);
    PageIsNext(api, read, ("page[size]", Decimal.Numeral(size)));
    Apart();
  }

  /** The page parameters are told apart by one character. */
  lemma Apart()
    ensures "page[size]" != "page[totals]" && "page[size]" != "page[after]" && "page[size]" != "page[before]"
    ensures "page[size]" != "page[number]" && "page[number]" != "page[totals]"
    ensures "page[number]" != "page[after]" && "page[number]" != "page[before]"
    ensures "page[after]" != "page[before]" && "page[after]" != "page[totals]" && "page[before]" != "page[totals]"
  {
    assert "page[size]"[5] == 's' && "page[totals]"[5] == 't' && "page[after]"[5] == 'a' && "page[before]"[5] == 'b'
        && "page[number]"[5] == 'n';
  }

  lemma NumberItemReads(api: Api, read: Read, number: nat)
    requires read.number.None? && 1 <= number <= Decimal.MAX_SQL_INTEGER
    ensures Next(api, read, NumberItem(number)) == Ok(read.(number := Some(number)))
  {
    hide Decimal.PositiveInteger, Decimal.Numeral;
    Decimal.PositiveIntegerReads(number);
    PageIsNext(api, read, NumberItem(number));
    Apart();
  }

  lemma CursorItemReads(api: Api, read: Read, before: bool, raw: string)
    requires read.cursor.None?
    ensures Next(api, read, CursorItem(before, raw)) == Ok(read.(cursor := Some((before, raw))))
  {
    PageIsNext(api, read, CursorItem(before, raw));
    Apart();
  }

  /** Reading a link gives the request's other parameters, and the page the link was made for. */
  lemma LinkReads(api: Api, items: seq<Item>, page: PageSpec, pageItem: Item, read: Read)
    requires ReadAll(api, items).Ok? && 1 <= page.size <= MAX_PAGE_SIZE
    requires
      var kept := Unpaged(ReadAll(api, items).value).(totals := if page.totals then Some(true) else None);
      Next(api, kept, pageItem) == Ok(read) && read.size.None?
    ensures ReadAll(api, CreateLink(items, page, pageItem)) == Ok(read.(size := Some(page.size)))
  {
    hide Next;
    var preserved := Filter(Preserves(), items);
    PreservedRead(api, items);
    var kept := Unpaged(ReadAll(api, items).value);
    var withTotals := preserved + (if page.totals then [("page[totals]", "true")] else []);
    if page.totals {
      TotalsItem(api, kept);
      ReadOneMore(api, preserved, ("page[totals]", "true"));
    } else {
      assert withTotals == preserved;
    }
    ReadOneMore(api, withTotals, pageItem);
    SizeItem(api, read, page.size);
    ReadOneMore(api, withTotals + [pageItem], ("page[size]", Decimal.Numeral(page.size)));
  }

  /** The request as accepted, with another page. */
  function OnPage(query: QuerySpec, number: nat, cursor: Option<PageCursor>): QuerySpec {
    query.(page := query.page.(number := number, cursor := cursor))
  }

  lemma AcceptedSize(api: Api, items: seq<Item>)
    requires Query(api, items).Ok?
    ensures 1 <= Query(api, items).value.page.size <= MAX_PAGE_SIZE
    ensures ReadAll(api, items).Ok?
  {
    hide Checked;
    var read := ReadAll(api, items).value;
    SizeBound(api, items);
    CheckedSize(api, read);
  }

  lemma CheckedSize(api: Api, read: Read)
    requires Checked(api, read).Ok?
    ensures Checked(api, read).value.page.size == PageSize(read)
  {}

  lemma {:induction false} SizeBound(api: Api, items: seq<Item>)
    requires ReadAll(api, items).Ok?
    ensures 1 <= PageSize(ReadAll(api, items).value) <= MAX_PAGE_SIZE
    decreases |items|
  {
    if items != [] {
      SizeBound(api, items[..|items| - 1]);
    }
  }

  /** An offset link parses to the same request on the page it names. */
  lemma OffsetLinkParses(api: Api, items: seq<Item>, number: nat)
    requires Query(api, items).Ok? && InRange(number, Query(api, items).value.page.size)
    requires number <= Decimal.MAX_SQL_INTEGER
    ensures var query := Query(api, items).value;
            Query(api, CreateLink(items, query.page, NumberItem(number))) == Ok(OnPage(query, number, None))
  {
    hide Next, Decoded, AppendTieBreaker;
    var query, read := Query(api, items).value, ReadAll(api, items).value;
    AcceptedSize(api, items);
    var kept := Unpaged(read).(totals := if query.page.totals then Some(true) else None);
    NumberItemReads(api, kept, number);
    LinkReads(api, items, query.page, NumberItem(number), kept.(number := Some(number)));
  }

  /** A cursor link parses to the same request at the position its cursor decodes to. */
  lemma CursorLinkParses(api: Api, items: seq<Item>, before: bool, raw: string)
    requires Query(api, items).Ok? && Decoded(raw, Query(api, items).value.sorts, api.policy, api.codec).Some?
    ensures var query := Query(api, items).value;
            var cursor := PageCursor(raw, before, Decoded(raw, query.sorts, api.policy, api.codec).value);
            Query(api, CreateLink(items, query.page, CursorItem(before, raw))) == Ok(OnPage(query, 1, Some(cursor)))
  {
    hide Next, Decoded, AppendTieBreaker;
    var query, read := Query(api, items).value, ReadAll(api, items).value;
    AcceptedSize(api, items);
    var kept := Unpaged(read).(totals := if query.page.totals then Some(true) else None);
    CursorItemReads(api, kept, before, raw);
    LinkReads(api, items, query.page, CursorItem(before, raw), kept.(cursor := Some((before, raw))));
  }

  // ---- The links of a whole page ----

  predicate ParsesTo(api: Api, link: Link, query: QuerySpec) {
    Query(api, link) == Ok(query)
  }

  lemma AtMost(n: nat, size: nat)
    requires size >= 1
    ensures n <= n * size
  {
    Multiply(1, size, n);
    assert n * size == size * n;
  }

  /** With at most 2^53 rows the last page stays within the offset bound. */
  lemma LastInRange(total: nat, size: nat)
    requires size >= 1 && total <= MAX_PAGE_OFFSET + 1
    ensures InRange(I.LastPage(total, size), size) && I.LastPage(total, size) <= Decimal.MAX_SQL_INTEGER
  {
    var pages := (total + size - 1) / size;
    assert pages * size <= total + size - 1;
    if pages >= 1 {
      assert (pages - 1) * size == pages * size - size;
      AtMost(pages - 1, size);
    }
  }

  lemma EarlierInRange(number: nat, other: nat, size: nat)
    requires InRange(other, size) && 1 <= number <= other && size >= 1
    ensures InRange(number, size)
  {
    Multiply(number - 1, other - 1, size);
  }

  lemma RangeIsInteger(number: nat, size: nat)
    requires InRange(number, size) && size >= 1
    ensures number <= Decimal.MAX_SQL_INTEGER
  {
    AtMost(number - 1, size);
  }

  lemma NextInRange(number: nat, size: nat, rows: nat)
    requires number >= 1 && number * size < rows <= MAX_PAGE_OFFSET + 1
    ensures InRange(number + 1, size)
  {}

  /** An accepted offset request over at most 2^53 rows; a probe row is only there when rows remain
      beyond the page. */
  ghost predicate Offset(api: Api, items: seq<Item>, total: Option<nat>, hasMore: Option<bool>, rows: nat) {
    && Query(api, items).Ok? && Query(api, items).value.page.cursor.None?
    && rows <= MAX_PAGE_OFFSET + 1 && (total.Some? ==> total.value <= rows)
    && var page := Query(api, items).value.page;
       page.number >= 1 && page.size >= 1 && (hasMore == Some(true) ==> page.number * page.size < rows)
  }

  lemma BackwardLinksParse(api: Api, items: seq<Item>, total: Option<nat>, hasMore: Option<bool>, rows: nat)
    requires Offset(api, items, total, hasMore, rows)
    ensures var query := Query(api, items).value;
            var n, links := query.page.number, OffsetLinks(items, query.page, total, hasMore);
            && ParsesTo(api, links.self, query)
            && ParsesTo(api, links.first, OnPage(query, 1, None))
            && (links.prev.Some? <==> n > 1)
            && (links.prev.Some? ==> ParsesTo(api, links.prev.value, OnPage(query, n - 1, None)))
  {
    AcceptedRange(api, items);
    hide Query, CreateLink, InRange, I.LastPage;
    var query := Query(api, items).value;
    var n, size := query.page.number, query.page.size;
    assert OnPage(query, n, None) == query;
    NumberParses(api, items, n);
    EarlierInRange(1, n, size);
    NumberParses(api, items, 1);
    if n > 1 {
      EarlierInRange(n - 1, n, size);
      NumberParses(api, items, n - 1);
    }
  }

  lemma NextLinkParses(api: Api, items: seq<Item>, total: Option<nat>, hasMore: Option<bool>, rows: nat)
    requires Offset(api, items, total, hasMore, rows)
    ensures var query := Query(api, items).value;
            var n, links := query.page.number, OffsetLinks(items, query.page, total, hasMore);
            && (links.next.Some? ==> ParsesTo(api, links.next.value, OnPage(query, n + 1, None)))
            && (total.Some? && n < I.LastPage(total.value, query.page.size) ==> links.next.Some?)
  {
    hide Query, CreateLink, InRange, I.LastPage;
    var page := Query(api, items).value.page;
    if hasMore == Some(true) {
      NextInRange(page.number, page.size, rows);
      NumberParses(api, items, page.number + 1);
    } else if total.Some? && page.number < I.LastPage(total.value, page.size) {
      LastInRange(total.value, page.size);
      EarlierInRange(page.number + 1, I.LastPage(total.value, page.size), page.size);
      NumberParses(api, items, page.number + 1);
    }
  }

  lemma LastLinkParses(api: Api, items: seq<Item>, total: Option<nat>, hasMore: Option<bool>, rows: nat)
    requires Offset(api, items, total, hasMore, rows)
    ensures var query := Query(api, items).value;
            var links := OffsetLinks(items, query.page, total, hasMore);
            && (links.last.Some? <==> total.Some?)
            && (total.Some? ==>
                  ParsesTo(api, links.last.value, OnPage(query, I.LastPage(total.value, query.page.size), None)))
  {
    hide Query, CreateLink, InRange, I.LastPage;
    if total.Some? {
      var size := Query(api, items).value.page.size;
      LastInRange(total.value, size);
      NumberParses(api, items, I.LastPage(total.value, size));
    }
  }

  /** Every link of a numbered page is there when it should be and parses back to the request on the
      intended page; `next` is there whenever the page is below a known `last`. */
  ghost predicate LinksParse(api: Api, query: QuerySpec, links: Links, last: Option<nat>) {
    var n := query.page.number;
    && ParsesTo(api, links.self, query)
    && ParsesTo(api, links.first, OnPage(query, 1, None))
    && (links.prev.Some? <==> n > 1)
    && (links.prev.Some? ==> ParsesTo(api, links.prev.value, OnPage(query, n - 1, None)))
    && (links.next.Some? ==> ParsesTo(api, links.next.value, OnPage(query, n + 1, None)))
    && (links.last.Some? <==> last.Some?)
    && (last.Some? ==>
          ParsesTo(api, links.last.value, OnPage(query, last.value, None)) && (n < last.value ==> links.next.Some?))
  }

  /** Every offset link of an accepted request parses back, so with at most 2^53 rows none of them is
      beyond the offset bound. */
  lemma OffsetLinksParse(api: Api, items: seq<Item>, total: Option<nat>, hasMore: Option<bool>, rows: nat)
    requires Offset(api, items, total, hasMore, rows)
    ensures
      var query := Query(api, items).value;
      var last := if total.None? then None else Some(I.LastPage(total.value, query.page.size));
      LinksParse(api, query, OffsetLinks(items, query.page, total, hasMore), last)
  {
    hide Query, OffsetLinks, I.LastPage, OnPage, ParsesTo;
    BackwardLinksParse(api, items, total, hasMore, rows);
    NextLinkParses(api, items, total, hasMore, rows);
    LastLinkParses(api, items, total, hasMore, rows);
  }

  lemma NumberParses(api: Api, items: seq<Item>, number: nat)
    requires Query(api, items).Ok? && InRange(number, Query(api, items).value.page.size)
    ensures var query := Query(api, items).value;
            ParsesTo(api, CreateLink(items, query.page, NumberItem(number)), OnPage(query, number, None))
  {
    AcceptedSize(api, items);
    RangeIsInteger(number, Query(api, items).value.page.size);
    OffsetLinkParses(api, items, number);
  }

  lemma AcceptedRange(api: Api, items: seq<Item>)
    requires Query(api, items).Ok?
    ensures InRange(Query(api, items).value.page.number, Query(api, items).value.page.size)
  {
    hide ReadAll, Decoded, AppendTieBreaker;
  }

  lemma CursorParses(api: Api, items: seq<Item>, before: bool, raw: string)
    requires Query(api, items).Ok?
    ensures var query := Query(api, items).value;
            var values := Decoded(raw, query.sorts, api.policy, api.codec);
            values.Some? ==>
              ParsesTo(api, CreateLink(items, query.page, CursorItem(before, raw)),
                       OnPage(query, 1, Some(PageCursor(raw, before, values.value))))
  {
    hide Query, CreateLink, Decoded;
    if Decoded(raw, Query(api, items).value.sorts, api.policy, api.codec).Some? {
      CursorLinkParses(api, items, before, raw);
    }
  }

  /** Every cursor link of an accepted request parses back to the request at the intended position:
      itself, either end, or whatever the cursor it carries decodes to. */
  lemma CursorLinksParse(api: Api, items: seq<Item>, hasMore: bool, next: Option<string>, prev: Option<string>)
    requires Query(api, items).Ok? && Query(api, items).value.page.cursor.Some?
    ensures
      var query := Query(api, items).value;
      var links := CursorLinks(items, query.page, hasMore, next, prev);
      && ParsesTo(api, links.self, query)
      && ParsesTo(api, links.first, OnPage(query, 1, Some(PageCursor("", false, []))))
      && links.last.Some? && ParsesTo(api, links.last.value, OnPage(query, 1, Some(PageCursor("", true, []))))
      && (links.next.Some? ==>
            var values := Decoded(next.value, query.sorts, api.policy, api.codec);
            values.Some? ==>
              ParsesTo(api, links.next.value, OnPage(query, 1, Some(PageCursor(next.value, false, values.value)))))
      && (links.prev.Some? ==>
            var values := Decoded(prev.value, query.sorts, api.policy, api.codec);
            values.Some? ==>
              ParsesTo(api, links.prev.value, OnPage(query, 1, Some(PageCursor(prev.value, true, values.value)))))
  {
    AcceptedCursor(api, items);
    hide Query, CreateLink;
    var query := Query(api, items).value;
    var cursor := query.page.cursor.value;
    assert OnPage(query, 1, Some(cursor)) == query;
    CursorParses(api, items, cursor.before, cursor.raw);
    CursorParses(api, items, false, "");
    CursorParses(api, items, true, "");
    if next.Some? { CursorParses(api, items, false, next.value); }
    if prev.Some? { CursorParses(api, items, true, prev.value); }
    hide Decoded, ParsesTo;
  }

  lemma AcceptedCursor(api: Api, items: seq<Item>)
    requires Query(api, items).Ok? && Query(api, items).value.page.cursor.Some?
    ensures var query := Query(api, items).value;
            var cursor := query.page.cursor.value;
            && query.page.number == 1
            && Decoded(cursor.raw, query.sorts, api.policy, api.codec) == Some(cursor.values)
            && Decoded("", query.sorts, api.policy, api.codec) == Some([])
  {
    hide ReadAll, AppendTieBreaker, KeysetColumns, Opened, DecodeValues;
  }
}
