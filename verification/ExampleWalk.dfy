/** The shipped examples collection: its policy meets every hypothesis of the general results. */
module ExampleWalk {
  import opened Wrappers
  import opened SortTerms
  import opened Keyset
  import I = Index
  import Walk
  import opened CursorCodec
  import opened CursorLength
  import opened QueryParams
  import opened Links
  import opened LinkWalk

  /** The columns hold values of their types. */
  ghost predicate KindsFit(kinds: Kinds, row: Row<Value>) {
    forall column :: column in EXAMPLE_POLICY.columnTypes ==>
      column in kinds && column in row && Fits(kinds[column], row[column])
  }

  /** An examples table behind the collection endpoint. */
  ghost predicate ServesExamples(server: Server) {
    && server.api.policy == EXAMPLE_POLICY && StrictTotal(server.lt) && Reads(server.api.codec)
    && (forall filters, row ::
          row in server.scope(filters) ==> ExampleRow(row) && KindsFit(server.api.codec.kinds, row))
    && (forall filters, a, b ::
          a in server.scope(filters) && b in server.scope(filters) && Cell(a, "id") == Cell(b, "id")
          ==> a == b)
  }

  lemma DefaultAgrees()
    ensures OverridesAgree(EXAMPLE_POLICY.defaultSort, EXAMPLE_POLICY)
  {
    assert Normalize(EXAMPLE_POLICY.defaultSort) == EXAMPLE_POLICY.defaultSort;
  }

  lemma DefaultSorts()
    ensures AppendTieBreaker(EXAMPLE_POLICY.defaultSort, EXAMPLE_POLICY)
            == [SortTerm("createdAt", true, None), SortTerm("id", false, None)]
  {
    assert !IsTie(EXAMPLE_POLICY.defaultSort[0], EXAMPLE_POLICY);
    assert Normalize(EXAMPLE_POLICY.defaultSort) == [SortTerm("createdAt", true, None)];
  }

  lemma ExampleSorts(api: Api, items: seq<Item>)
    requires api.policy == EXAMPLE_POLICY && Query(api, items).Ok?
    ensures Effective(Query(api, items).value.sorts, EXAMPLE_NAMES)
  {
    SortsOf(api, items);
    var read := ReadAll(api, items).value;
    if read.sorts.Some? && read.sorts.value != [] {
      ReadSorts(api, items);
      var raw :| ParseSort(raw, api.policy) == read.sorts;
      hide Query, ReadAll, ParseSort;
      RequestedSorts(raw);
    } else {
      hide Query, ReadAll;
      DefaultSorts();
      ExampleName("createdAt");
      ExampleName("id");
    }
  }

  lemma RequestedSorts(raw: string)
    requires ParseSort(raw, EXAMPLE_POLICY).Some?
    ensures Effective(ParseSort(raw, EXAMPLE_POLICY).value, EXAMPLE_NAMES)
  {
    hide ParseSort, HasTie, Normalize;
    SortIsEffective(raw, EXAMPLE_POLICY);
    var sorts := ParseSort(raw, EXAMPLE_POLICY).value;
    forall i | 0 <= i < |sorts| ensures sorts[i].name in EXAMPLE_NAMES {
      ExampleName(sorts[i].name);
    }
  }

  lemma ExampleName(name: string)
    requires name in EXAMPLE_POLICY.sorts || name == "id"
    ensures name in EXAMPLE_NAMES
  {
    assert EXAMPLE_NAMES[0] == "title" && EXAMPLE_NAMES[1] == "status" && EXAMPLE_NAMES[2] == "score"
        && EXAMPLE_NAMES[3] == "createdAt" && EXAMPLE_NAMES[4] == "updatedAt" && EXAMPLE_NAMES[5] == "id";
  }

  lemma ExampleKey(sorts: seq<SortTerm>, kinds: Kinds, row: Row<Value>)
    requires Effective(sorts, EXAMPLE_NAMES) && KeysetColumns(sorts, EXAMPLE_POLICY).Some?
    requires KindsFit(kinds, row)
    ensures var order := KeysetColumns(sorts, EXAMPLE_POLICY).value;
            NoNulls(order, row) && FitsRow(order, kinds, row)
  {
    hide Fits, ResolveSortColumn;
  }

  lemma ExampleReady(server: Server, items: seq<Item>)
    requires ServesExamples(server) && Query(server.api, items).Ok? && Query(server.api, items).value.page.cursor.Some?
    ensures
      var query := Query(server.api, items).value;
      && I.Ready(server.lt, server.scope(query.filters), query.sorts, server.api.policy)
      && Mintable(server, query.filters, query.sorts)
  {
    var query := Query(server.api, items).value;
    DefaultAgrees();
    AcceptedSorts(server.api, items);
    AcceptedCursor(server.api, items);
    ExampleSorts(server.api, items);
    AppendIdempotent(query.sorts, server.api.policy);
    hide Query, AppendTieBreaker, KeysetColumns, ExampleRow, Effective, KindsFit, FitsRow, NoNulls, Minted, Decoded;
    hide StrictTotal;
    DecodedCount(query.page.cursor.value.raw, query.sorts, server.api.policy, server.api.codec);
    forall row | row in server.scope(query.filters)
      ensures NoNulls(KeysetColumns(query.sorts, EXAMPLE_POLICY).value, row)
      ensures FitsRow(KeysetColumns(query.sorts, EXAMPLE_POLICY).value, server.api.codec.kinds, row)
      ensures CursorOf(server, query.sorts, row).Some?
              && |CursorOf(server, query.sorts, row).value| <= MAX_CURSOR_LENGTH
    {
      ExampleKey(query.sorts, server.api.codec.kinds, row);
      ExampleCursorFits(query.sorts, row);
    }
  }

  /** Whatever sort, filters, includes and page size a client asks the examples collection for, walking
      its links from either end reads the whole filtered collection in order. */
  lemma ExamplesWalk(server: Server, items: seq<Item>)
    requires ServesExamples(server) && Query(server.api, items).Ok?
    requires var cursor := Query(server.api, items).value.page.cursor; cursor.Some? && cursor.value.values == []
    ensures
      var query := Query(server.api, items).value;
      && Walking(server, items, query.page.cursor.value.before)
      && Follow(server, items, query.page.cursor.value.before)
         == Walk.Collection(server.lt, server.scope(query.filters), query.sorts, server.api.policy)
  {
    hide Query, I.Ready, Mintable, Follow, Walk.Collection, Walking, AppendTieBreaker;
    DefaultAgrees();
    ExampleReady(server, items);
    LinksWalkTheCollection(server, items);
  }
}
