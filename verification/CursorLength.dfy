/** No cursor minted under the shipped policies is longer than the limit decoding enforces. */
module CursorLength {
  import opened Wrappers
  import opened SortTerms
  import opened Keyset
  import Index
  import Decimal
  import opened CursorText
  import opened CursorCodec

  /** The longest escaped text a sort's value can have, by sort name. */
  type Widths = map<string, nat>

  /** What a sort adds to the payload: its signed name and its value, quoted and separated. */
  function Cost(name: string, widths: Widths): nat
    requires name in widths
  {
    |Escape("-" + name)| + 3 + widths[name] + 3
  }

  function Total(names: seq<string>, widths: Widths): nat
    requires forall i :: 0 <= i < |names| ==> names[i] in widths
  {
    if names == [] then 0 else Cost(names[0], widths) + Total(names[1..], widths)
  }

  lemma {:induction false} TotalSplit(a: seq<string>, b: seq<string>, widths: Widths)
    requires forall i :: 0 <= i < |a| ==> a[i] in widths
    requires forall i :: 0 <= i < |b| ==> b[i] in widths
    ensures Total(a + b, widths) == Total(a, widths) + Total(b, widths)
  {
    if a == [] {
      assert a + b == b;
    } else {
      assert (a + b)[1..] == a[1..] + b;
      TotalSplit(a[1..], b, widths);
    }
  }

  ghost predicate DistinctNames(names: seq<string>) {
    forall i, j :: 0 <= i < j < |names| ==> names[i] != names[j]
  }

  lemma StillThere(some: seq<string>, all: seq<string>, j: nat)
    requires some != [] && DistinctNames(some) && forall i :: 0 <= i < |some| ==> some[i] in all
    requires j < |all| && all[j] == some[0]
    ensures forall i :: 0 <= i < |some[1..]| ==> some[1..][i] in all[..j] + all[j + 1..]
  {
    var rest := all[..j] + all[j + 1..];
    forall i | 0 <= i < |some[1..]| ensures some[1..][i] in rest {
      assert some[i + 1] in all;
      var k :| 0 <= k < |all| && all[k] == some[i + 1];
      assert all[k] == if k < j then rest[k] else rest[k - 1];
    }
  }

  /** Distinct names among given ones cost at most as much as all of those. */
  lemma {:induction false} TotalOfSome(some: seq<string>, all: seq<string>, widths: Widths)
    requires DistinctNames(some) && forall i :: 0 <= i < |some| ==> some[i] in all
    requires forall i :: 0 <= i < |all| ==> all[i] in widths
    ensures forall i :: 0 <= i < |some| ==> some[i] in widths
    ensures Total(some, widths) <= Total(all, widths)
    decreases |some|
  {
    if some != [] {
      assert some[0] in all;
      var j :| 0 <= j < |all| && all[j] == some[0];
      var rest := all[..j] + all[j + 1..];
      StillThere(some, all, j);
      TotalOfSome(some[1..], rest, widths);
      assert all == all[..j] + ([all[j]] + all[j + 1..]);
      TotalSplit(all[..j], [all[j]] + all[j + 1..], widths);
      TotalSplit(all[..j], all[j + 1..], widths);
      assert ([all[j]] + all[j + 1..])[1..] == all[j + 1..];
    }
  }

  function Names(sorts: seq<SortTerm>): seq<string> {
    seq(|sorts|, i requires 0 <= i < |sorts| => sorts[i].name)
  }

  /** The row's value of every sort stays within its width. */
  ghost predicate Within(sorts: seq<SortTerm>, order: seq<OrderTerm>, widths: Widths, row: Row<Value>) {
    && |order| == |sorts|
    && forall i :: 0 <= i < |sorts| ==>
         order[i].column in row && sorts[i].name in widths
         && |Escape(EncodeValue(row[order[i].column]))| <= widths[sorts[i].name]
  }

  lemma SignLength(term: SortTerm)
    ensures |Escape(Sign(term))| <= |Escape("-" + term.name)|
  {
    assert ("-" + term.name)[1..] == term.name;
  }

  lemma {:induction false} WrittenWithin(sorts: seq<SortTerm>, order: seq<OrderTerm>, widths: Widths, row: Row<Value>)
    requires Within(sorts, order, widths, row) && NoNulls(order, row)
    ensures Written(Signature(sorts)) + Written(Printed(Index.KeyValues(order, row))) <= Total(Names(sorts), widths)
    decreases |sorts|
  {
    if sorts != [] {
      hide Escape, EncodeValue, Written, Total, Sign, Signature, Printed, Names, NoNulls, Index.KeyValues;
      var value := row[order[0].column];
      SignLength(sorts[0]);
      WrittenWithin(sorts[1..], order[1..], widths, row);
      SplitSorts(sorts, order, row);
      WrittenFirst(Sign(sorts[0]), Signature(sorts[1..]));
      WrittenFirst(EncodeValue(value), Printed(Index.KeyValues(order[1..], row)));
      TotalFirst(sorts[0].name, Names(sorts[1..]), widths);
    }
  }

  lemma SplitSorts(sorts: seq<SortTerm>, order: seq<OrderTerm>, row: Row<Value>)
    requires |sorts| == |order| > 0 && NoNulls(order, row)
    ensures NoNulls(order[1..], row)
    ensures Names(sorts) == [sorts[0].name] + Names(sorts[1..])
    ensures Signature(sorts) == [Sign(sorts[0])] + Signature(sorts[1..])
    ensures Printed(Index.KeyValues(order, row))
            == [EncodeValue(row[order[0].column])] + Printed(Index.KeyValues(order[1..], row))
  {}

  lemma WrittenFirst(x: string, xs: seq<string>)
    ensures Written([x] + xs) == |Escape(x)| + 3 + Written(xs)
  {
    assert ([x] + xs)[1..] == xs;
  }

  lemma TotalFirst(name: string, names: seq<string>, widths: Widths)
    requires name in widths && forall i :: 0 <= i < |names| ==> names[i] in widths
    ensures Total([name] + names, widths) == Cost(name, widths) + Total(names, widths)
  {
    assert ([name] + names)[1..] == names;
  }

  /** A policy whose sorts, all together, stay within 3072 bytes of payload never mints a cursor that
      decoding rejects for its length. */
  lemma MintedFits(sorts: seq<SortTerm>, policy: QueryPolicy, row: Row<Value>, all: seq<string>, widths: Widths)
    requires KeysetColumns(sorts, policy).Some? && NoNulls(KeysetColumns(sorts, policy).value, row)
    requires Within(sorts, KeysetColumns(sorts, policy).value, widths, row)
    requires DistinctNames(Names(sorts)) && forall i :: 0 <= i < |sorts| ==> sorts[i].name in all
    requires forall i :: 0 <= i < |all| ==> all[i] in widths
    requires Total(all, widths) + 15 <= MAX_PAYLOAD_LENGTH
    ensures Minted(sorts, policy, row).Some? && |Minted(sorts, policy, row).value| <= MAX_CURSOR_LENGTH
  {
    hide Dumps, Total, Written, Armored;
    var order := KeysetColumns(sorts, policy).value;
    var payload := Payload(Signature(sorts), Printed(Index.KeyValues(order, row)));
    OpensArmored(payload);
    DumpsLength(payload);
    WrittenWithin(sorts, order, widths, row);
    TotalOfSome(Names(sorts), all, widths);
  }

  // ---- The shipped policies ----


  const EXAMPLE_POLICY := QueryPolicy(
    map["title" := "title", "status" := "status", "score" := "score", "createdAt" := "created_at",
        "updatedAt" := "updated_at"],
    [SortTerm("createdAt", true, None)], "id", false, "id",
    map["title" := SORTABLE, "status" := SORTABLE, "score" := SORTABLE, "created_at" := SORTABLE,
        "updated_at" := SORTABLE, "id" := SORTABLE])

  /** Categories and tags have the same policy. */
  const LABEL_POLICY := QueryPolicy(
    map["name" := "name", "createdAt" := "created_at"], [SortTerm("name", false, None)], "id", false, "id",
    map["name" := SORTABLE, "created_at" := SORTABLE, "id" := SORTABLE])

  const EXAMPLE_NAMES := ["title", "status", "score", "createdAt", "updatedAt", "id"]
  const LABEL_NAMES := ["name", "createdAt", "id"]

  const WIDTHS: Widths := map["title" := 2400, "name" := 2400, "status" := 8, "score" := 11,
                              "createdAt" := 32, "updatedAt" := 32, "id" := 36]

  predicate PlainCell(row: Row<Value>, column: Column, width: nat) {
    column in row && row[column].Text? && PlainText(row[column].printed) && |row[column].printed| <= width
  }

  predicate ShortText(row: Row<Value>, column: Column) {
    column in row && row[column].Str? && |row[column].s| <= 200
  }

  /** A row of the examples table: a title of at most 200 characters, a status, a 32-bit score, ISO
      timestamps and a UUID. */
  predicate ExampleRow(row: Row<Value>) {
    && ShortText(row, "title") && PlainCell(row, "created_at", 32) && PlainCell(row, "updated_at", 32)
    && PlainCell(row, "id", 36)
    && "status" in row && row["status"].Member? && row["status"].name in {"draft", "active", "archived"}
    && "score" in row && row["score"].Int? && -0x8000_0000 <= row["score"].i < 0x8000_0000
  }

  predicate LabelRow(row: Row<Value>) {
    ShortText(row, "name") && PlainCell(row, "created_at", 32) && PlainCell(row, "id", 36)
  }

  /** An effective sort of the policy: known names, each once. */
  ghost predicate Effective(sorts: seq<SortTerm>, all: seq<string>) {
    sorts != [] && DistinctNames(Names(sorts)) && forall i :: 0 <= i < |sorts| ==> sorts[i].name in all
  }

  lemma TextWidth(v: Value, width: nat)
    requires (v.Text? && PlainText(v.printed) && |v.printed| <= width) || (v.Str? && 12 * |v.s| <= width)
    ensures |Escape(EncodeValue(v))| <= width
  {
    if v.Text? { EscapePlain(v.printed); } else { EscapeIsAscii(v.s); }
  }

  lemma StatusWidth(name: string)
    requires name in {"draft", "active", "archived"}
    ensures |Escape(name)| <= 8
  {
    EscapePlain(name);
  }

  lemma ScoreWidth(i: int)
    requires -0x8000_0000 <= i < 0x8000_0000
    ensures |Escape(PrintInt(i))| <= 11
  {
    var n := if i < 0 then -i else i;
    Decimal.NumeralReads(n);
    assert Decimal.Power10(10) == 10_000_000_000 by {
      assert Decimal.Power10(4) == 10_000;
      assert Decimal.Power10(8) == 1_0000_0000;
    }
    Decimal.NumeralLength(n, 10);
    EscapePlain(PrintInt(i));
  }

  lemma ExampleWithin(sorts: seq<SortTerm>, row: Row<Value>, i: nat)
    requires ExampleRow(row) && i < |sorts| && sorts[i].name in EXAMPLE_NAMES
    ensures var column := ResolveSortColumn(sorts[i], EXAMPLE_POLICY);
            && column.Some? && column.value in EXAMPLE_POLICY.columnTypes && column.value in row
            && |Escape(EncodeValue(row[column.value]))| <= WIDTHS[sorts[i].name]
  {
    hide Escape, PlainText, PrintInt;
    TextWidth(row["title"], 2400);
    TextWidth(row["created_at"], 32);
    TextWidth(row["updated_at"], 32);
    TextWidth(row["id"], 36);
    StatusWidth(row["status"].name);
    ScoreWidth(row["score"].i);
  }

  lemma LabelWithin(sorts: seq<SortTerm>, row: Row<Value>, i: nat)
    requires LabelRow(row) && i < |sorts| && sorts[i].name in LABEL_NAMES
    ensures var column := ResolveSortColumn(sorts[i], LABEL_POLICY);
            && column.Some? && column.value in LABEL_POLICY.columnTypes && column.value in row
            && |Escape(EncodeValue(row[column.value]))| <= WIDTHS[sorts[i].name]
  {
    hide Escape, PlainText;
    TextWidth(row["name"], 2400);
    TextWidth(row["created_at"], 32);
    TextWidth(row["id"], 36);
  }

  lemma CostIs(name: string)
    requires PlainText(name) && name in WIDTHS
    ensures Cost(name, WIDTHS) == |name| + 7 + WIDTHS[name]
  {
    EscapePlain("-" + name);
  }

  lemma TotalThree(a: string, b: string, c: string)
    requires a in WIDTHS && b in WIDTHS && c in WIDTHS
    requires PlainText(a) && PlainText(b) && PlainText(c)
    ensures Total([a, b, c], WIDTHS) == |a| + |b| + |c| + 21 + WIDTHS[a] + WIDTHS[b] + WIDTHS[c]
  {
    hide Cost, Total, PlainText;
    CostIs(a);
    CostIs(b);
    CostIs(c);
    assert [a, b, c] == [a] + [b, c] && [b, c] == [b] + [c] && [c] == [c] + [];
    TotalFirst(a, [b, c], WIDTHS);
    TotalFirst(b, [c], WIDTHS);
    TotalFirst(c, [], WIDTHS);
    assert Total([], WIDTHS) == 0 by { NoTotal(); }
  }

  lemma NoTotal()
    ensures Total([], WIDTHS) == 0
  {}

  lemma ExampleTotal()
    ensures Total(EXAMPLE_NAMES, WIDTHS) == 2597
  {
    hide Total;
    assert EXAMPLE_NAMES == ["title", "status", "score"] + ["createdAt", "updatedAt", "id"];
    TotalSplit(["title", "status", "score"], ["createdAt", "updatedAt", "id"], WIDTHS);
    TotalThree("title", "status", "score");
    TotalThree("createdAt", "updatedAt", "id");
  }

  /** Under any effective sort of the examples policy, every row mints a cursor within the limit. */
  lemma ExampleCursorFits(sorts: seq<SortTerm>, row: Row<Value>)
    requires Effective(sorts, EXAMPLE_NAMES) && ExampleRow(row)
    ensures Minted(sorts, EXAMPLE_POLICY, row).Some?
    ensures |Minted(sorts, EXAMPLE_POLICY, row).value| <= MAX_CURSOR_LENGTH
  {
    hide Minted, Total, Escape, EncodeValue, ExampleRow;
    forall i | 0 <= i < |sorts|
      ensures var column := ResolveSortColumn(sorts[i], EXAMPLE_POLICY);
              && column.Some? && column.value in EXAMPLE_POLICY.columnTypes && column.value in row
              && |Escape(EncodeValue(row[column.value]))| <= WIDTHS[sorts[i].name]
    {
      ExampleWithin(sorts, row, i);
    }
    ExampleTotal();
    MintedFits(sorts, EXAMPLE_POLICY, row, EXAMPLE_NAMES, WIDTHS);
  }

  lemma LabelCursorFits(sorts: seq<SortTerm>, row: Row<Value>)
    requires Effective(sorts, LABEL_NAMES) && LabelRow(row)
    ensures Minted(sorts, LABEL_POLICY, row).Some?
    ensures |Minted(sorts, LABEL_POLICY, row).value| <= MAX_CURSOR_LENGTH
  {
    hide Minted, Escape, EncodeValue, LabelRow, Total;
    forall i | 0 <= i < |sorts|
      ensures var column := ResolveSortColumn(sorts[i], LABEL_POLICY);
              && column.Some? && column.value in LABEL_POLICY.columnTypes && column.value in row
              && |Escape(EncodeValue(row[column.value]))| <= WIDTHS[sorts[i].name]
    {
      LabelWithin(sorts, row, i);
    }
    TotalThree("name", "createdAt", "id");
    MintedFits(sorts, LABEL_POLICY, row, LABEL_NAMES, WIDTHS);
  }
}
