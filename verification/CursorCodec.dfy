/** Opaque cursors: a row's sort key with the signature of the sort it belongs to. */
module CursorCodec {
  import opened Wrappers
  import opened SortTerms
  import opened Keyset
  import Index
  import Decimal
  import Base64
  import opened CursorText

  const MAX_CURSOR_LENGTH: nat := 4096

  /** The bytes that four characters for three hold within that length. */
  const MAX_PAYLOAD_LENGTH: nat := 3072

  /** Column values. `Text` stands for the types whose printer and parser are taken to be inverse:
      floats, decimals, UUIDs, timestamps and dates, by their printed form. */
  datatype Value = Bool(b: bool) | Int(i: int) | Str(s: string) | Member(name: string) | Text(printed: string)

  datatype Kind =
    | BoolKind
    | IntKind(bits: nat)
    | StrKind
    | EnumKind(members: set<string>)
    | TextKind(parse: string -> Option<string>)

  /** The Python type of every mapped column. */
  type Kinds = map<Column, Kind>

  /** No sign for zero. */
  function PrintInt(i: int): (text: string)
    ensures i >= 0 ==> text == Decimal.Numeral(i)
    ensures i < 0 ==> text == "-" + Decimal.Numeral(-i)
  {
    if i < 0 then "-" + Decimal.Numeral(-i) else Decimal.Numeral(i)
  }

  function ParseInt(s: string): Option<int> {
    var negative := s != "" && s[0] == '-';
    var digits := if negative then s[1..] else s;
    if digits == "" || !Decimal.AllDigits(digits) then None
    else Some(if negative then 0 - Decimal.Number(digits) else Decimal.Number(digits))
  }

  function Limit(bits: nat): int {
    if bits == 64 then 0x8000_0000_0000_0000 else if bits == 16 then 0x8000 else 0x8000_0000
  }

  function EncodeValue(v: Value): string {
    match v
    case Bool(b) => if b then "true" else "false"
    case Int(i) => PrintInt(i)
    case Str(s) => s
    case Member(name) => name
    case Text(printed) => printed
  }

  /** What decoding takes from Python: base64, UTF-8 and JSON down to a signature and string values
      (None when any of them refuses), and `int()`. Both may accept more texts than are ever minted. */
  datatype Codec = Codec(kinds: Kinds, open: string -> Option<Payload>, readInt: string -> Option<int>)

  function DecodeValue(codec: Codec, kind: Kind, raw: string): Option<Value> {
    match kind
    case EnumKind(members) => if raw in members then Some(Member(raw)) else None
    case BoolKind => if raw == "true" || raw == "false" then Some(Bool(raw == "true")) else None
    case IntKind(bits) =>
      var i := codec.readInt(raw);
      if i.None? || !(-Limit(bits) <= i.value < Limit(bits)) then None else Some(Int(i.value))
    case StrKind => Some(Str(raw))
    case TextKind(parse) => var printed := parse(raw); if printed.None? then None else Some(Text(printed.value))
  }

  /** A value the column can hold. */
  predicate Fits(kind: Kind, v: Value) {
    match kind
    case EnumKind(members) => v.Member? && v.name in members
    case BoolKind => v.Bool?
    case IntKind(bits) => v.Int? && -Limit(bits) <= v.i < Limit(bits)
    case StrKind => v.Str?
    case TextKind(parse) => v.Text? && parse(v.printed) == Some(v.printed)
  }

  lemma IntReads(i: int)
    ensures ParseInt(PrintInt(i)) == Some(i)
  {
    hide Decimal.Numeral, Decimal.Number;
    if i < 0 {
      Decimal.NumeralReads(-i);
      assert ("-" + Decimal.Numeral(-i))[1..] == Decimal.Numeral(-i);
    } else {
      Decimal.NumeralReads(i);
      assert Decimal.IsDigit(Decimal.Numeral(i)[0]);
    }
  }

  /** The range of an integer column: 64, 16 or else 32 bits, signed. */
  predicate InColumn(bits: nat, i: int) {
    if bits == 64 then -9_223_372_036_854_775_808 <= i <= 9_223_372_036_854_775_807
    else if bits == 16 then -32_768 <= i <= 32_767
    else -2_147_483_648 <= i <= 2_147_483_647
  }

  /** Exactly which texts decode, and to what. */
  lemma ValueIs(codec: Codec, kind: Kind, raw: string, v: Value)
    ensures DecodeValue(codec, kind, raw) == Some(v)
            <==> match kind
                 case EnumKind(members) => raw in members && v == Member(raw)
                 case BoolKind => (raw == "true" && v == Bool(true)) || (raw == "false" && v == Bool(false))
                 case IntKind(bits) => v.Int? && codec.readInt(raw) == Some(v.i) && InColumn(bits, v.i)
                 case StrKind => v == Str(raw)
                 case TextKind(parse) => v.Text? && parse(raw) == Some(v.printed)
    ensures forall bits, i :: Fits(IntKind(bits), Int(i)) <==> InColumn(bits, i)
  {
    assert "true"[0] == 't' && "false"[0] == 'f';
  }

  // ---- Minting and decoding ----

  function Sign(term: SortTerm): string {
    if term.descending then "-" + term.name else term.name
  }

  function Signature(sorts: seq<SortTerm>): seq<string> {
    seq(|sorts|, i requires 0 <= i < |sorts| => Sign(sorts[i]))
  }

  function Printed(values: seq<Value>): seq<string> {
    seq(|values|, i requires 0 <= i < |values| => EncodeValue(values[i]))
  }

  function Bytes(text: string): seq<Base64.byte>
    requires Ascii(text)
  {
    seq(|text|, i requires 0 <= i < |text| => text[i] as int)
  }

  /** The text of ASCII bytes. */
  function Chars(bytes: seq<Base64.byte>): Option<string> {
    if forall i :: 0 <= i < |bytes| ==> bytes[i] < 128 then
      Some(seq(|bytes|, i requires 0 <= i < |bytes| => bytes[i] as char))
    else None
  }

  function Armored(payload: Payload): string {
    DumpsLength(payload);
    Base64.EncodeStripped(Bytes(Dumps(payload)))
  }

  function Minted(sorts: seq<SortTerm>, policy: QueryPolicy, row: Row<Value>): Option<string> {
    var key := Index.MintKey(sorts, policy, row);
    if key.None? then None else Some(Armored(Payload(Signature(sorts), Printed(key.value))))
  }

  predicate Decodable(order: seq<OrderTerm>, codec: Codec, raws: seq<string>, i: nat)
    requires i < |order| == |raws|
  {
    order[i].column in codec.kinds && DecodeValue(codec, codec.kinds[order[i].column], raws[i]).Some?
  }

  function DecodeValues(order: seq<OrderTerm>, codec: Codec, raws: seq<string>): Option<seq<Value>>
    requires |order| == |raws|
  {
    if forall i :: 0 <= i < |order| ==> Decodable(order, codec, raws, i) then
      Some(seq(|order|, i requires 0 <= i < |order| && Decodable(order, codec, raws, i) =>
                          DecodeValue(codec, codec.kinds[order[i].column], raws[i]).value))
    else None
  }

  function Opened(raw: string): Option<Payload> {
    var bytes := Base64.DecodeStripped(raw);
    if bytes.None? then None
    else
      var text := Chars(bytes.value);
      if text.None? then None else Loads(text.value)
  }

  /** The values of a cursor under an effective sort; no values for the empty boundary cursor, None
      for INVALID_PAGE. */
  function Decoded(raw: string, sorts: seq<SortTerm>, policy: QueryPolicy, codec: Codec): Option<seq<Value>> {
    var order := KeysetColumns(sorts, policy);
    if order.None? then None
    else if raw == "" then Some([])
    else if |raw| > MAX_CURSOR_LENGTH then None
    else
      var payload := codec.open(raw);
      if payload.None? || payload.value.signature != Signature(sorts) || |payload.value.values| != |order.value|
      then None
      else DecodeValues(order.value, codec, payload.value.values)
  }

  method EncodeCursor(sorts: seq<SortTerm>, policy: QueryPolicy, row: Row<Value>) returns (cursor: Option<string>)
    ensures cursor == Minted(sorts, policy, row)
  {
    var order := KeysetColumns(sorts, policy);
    if order.None? {
      return None;
    }
    var values: seq<Value> := [];
    for i := 0 to |order.value|
      invariant |values| == i
      invariant forall k :: 0 <= k < i ==>
        order.value[k].column in row && values[k] == row[order.value[k].column]
    {
      if order.value[i].column !in row {
        return None;
      }
      values := values + [row[order.value[i].column]];
    }
    assert values == Index.KeyValues(order.value, row);
    return Some(Armored(Payload(Signature(sorts), Printed(values))));
  }

  method DecodeCursor(raw: string, sorts: seq<SortTerm>, policy: QueryPolicy, codec: Codec)
    returns (values: Option<seq<Value>>)
    ensures values == Decoded(raw, sorts, policy, codec)
    ensures |raw| > 4096 ==> values.None?
  {
    hide DecodeValues;
    var order := KeysetColumns(sorts, policy);
    if order.None? {
      return None;
    }
    if raw == "" {
      return Some([]);
    }
    if |raw| > MAX_CURSOR_LENGTH {
      return None;
    }
    var payload := codec.open(raw);
    if payload.None? || payload.value.signature != Signature(sorts) || |payload.value.values| != |order.value| {
      return None;
    }
    values := DecodeEach(order.value, codec, payload.value.values);
  }

  method DecodeEach(order: seq<OrderTerm>, codec: Codec, raws: seq<string>) returns (values: Option<seq<Value>>)
    requires |order| == |raws|
    ensures values == DecodeValues(order, codec, raws)
  {
    hide DecodeValue;
    var decoded: seq<Value> := [];
    for i := 0 to |raws|
      invariant |decoded| == i
      invariant forall k :: 0 <= k < i ==>
        Decodable(order, codec, raws, k)
        && decoded[k] == DecodeValue(codec, codec.kinds[order[k].column], raws[k]).value
    {
      if order[i].column !in codec.kinds {
        assert !Decodable(order, codec, raws, i);
        return None;
      }
      var value := DecodeValue(codec, codec.kinds[order[i].column], raws[i]);
      if value.None? {
        assert !Decodable(order, codec, raws, i);
        return None;
      }
      decoded := decoded + [value.value];
    }
    DecodesTo(order, codec, raws, decoded);
    return Some(decoded);
  }

  lemma DecodesTo(order: seq<OrderTerm>, codec: Codec, raws: seq<string>, values: seq<Value>)
    requires |order| == |raws| == |values|
    requires forall k :: 0 <= k < |raws| ==>
      Decodable(order, codec, raws, k) && values[k] == DecodeValue(codec, codec.kinds[order[k].column], raws[k]).value
    ensures DecodeValues(order, codec, raws) == Some(values)
  {
    hide DecodeValue;
    var decoded := DecodeValues(order, codec, raws).value;
    assert forall k :: 0 <= k < |values| ==> decoded[k] == values[k];
    assert decoded == values;
  }

  /** The cursor's text opens to the sort's tokens and one text per column, each of which decodes. */
  predicate Carries(raw: string, sorts: seq<SortTerm>, order: seq<OrderTerm>, codec: Codec, values: seq<Value>) {
    var payload := codec.open(raw);
    && |raw| <= 4096 && payload.Some? && payload.value.signature == Signature(sorts)
    && |order| == |payload.value.values| == |values|
    && forall i :: 0 <= i < |order| ==>
         && order[i].column in codec.kinds
         && DecodeValue(codec, codec.kinds[order[i].column], payload.value.values[i]) == Some(values[i])
  }

  lemma EachDecodes(order: seq<OrderTerm>, codec: Codec, raws: seq<string>, values: seq<Value>)
    requires |order| == |raws| && DecodeValues(order, codec, raws) == Some(values)
    ensures |values| == |raws|
    ensures forall i :: 0 <= i < |order| ==>
      && order[i].column in codec.kinds
      && DecodeValue(codec, codec.kinds[order[i].column], raws[i]) == Some(values[i])
  {
    hide DecodeValue;
    forall i | 0 <= i < |order|
      ensures order[i].column in codec.kinds
              && DecodeValue(codec, codec.kinds[order[i].column], raws[i]) == Some(values[i])
    {
      assert Decodable(order, codec, raws, i);
    }
  }

  /** Exactly which cursors are accepted, and as which position. */
  lemma DecodedIs(raw: string, sorts: seq<SortTerm>, policy: QueryPolicy, codec: Codec, values: seq<Value>)
    ensures Decoded(raw, sorts, policy, codec) == Some(values)
            <==> && KeysetColumns(sorts, policy).Some?
                 && if raw == "" then values == []
                    else Carries(raw, sorts, KeysetColumns(sorts, policy).value, codec, values)
  {
    hide KeysetColumns, Signature, DecodeValue, DecodeValues, Decodable;
    if KeysetColumns(sorts, policy).Some? && raw != "" && codec.open(raw).Some? {
      var order, raws := KeysetColumns(sorts, policy).value, codec.open(raw).value.values;
      if Carries(raw, sorts, order, codec, values) { EachDecodesTo(order, codec, raws, values); }
      if Decoded(raw, sorts, policy, codec) == Some(values) { EachDecodes(order, codec, raws, values); }
    }
  }

  lemma EachDecodesTo(order: seq<OrderTerm>, codec: Codec, raws: seq<string>, values: seq<Value>)
    requires |order| == |raws| == |values|
    requires forall i :: 0 <= i < |order| ==>
      && order[i].column in codec.kinds
      && DecodeValue(codec, codec.kinds[order[i].column], raws[i]) == Some(values[i])
    ensures DecodeValues(order, codec, raws) == Some(values)
  {
    hide DecodeValue;
    DecodesTo(order, codec, raws, values);
  }

  // ---- Round trip ----

  lemma OpensArmored(payload: Payload)
    ensures Opened(Armored(payload)) == Some(payload) && Armored(payload) != ""
    ensures |Armored(payload)| == (4 * |Dumps(payload)| + 2) / 3
  {
    DumpsLength(payload);
    hide Dumps, Loads;
    var text := Dumps(payload);
    Base64.DecodeStrippedEncode(Bytes(text));
    assert Chars(Bytes(text)).value == text;
    LoadsDumps(payload);
    NonEmpty(payload);
  }

  lemma NonEmpty(payload: Payload)
    ensures |Dumps(payload)| > 0
  {}

  /** The libraries read back what the codec writes. */
  ghost predicate Reads(codec: Codec) {
    && (forall payload: Payload {:trigger Armored(payload)} :: codec.open(Armored(payload)) == Some(payload))
    && (forall i: int {:trigger PrintInt(i)} :: codec.readInt(PrintInt(i)) == Some(i))
  }

  /** A decoder that accepts nothing but what is minted; it reads everything back. */
  function Strict(kinds: Kinds): Codec {
    Codec(kinds, Opened, ParseInt)
  }

  lemma StrictReads(kinds: Kinds)
    ensures Reads(Strict(kinds))
  {
    hide Armored, Opened, ParseInt, PrintInt;
    forall payload: Payload ensures Opened(Armored(payload)) == Some(payload) { OpensArmored(payload); }
    forall i: int ensures ParseInt(PrintInt(i)) == Some(i) { IntReads(i); }
  }

  lemma ValueReads(codec: Codec, kind: Kind, v: Value)
    requires Reads(codec) && Fits(kind, v)
    ensures DecodeValue(codec, kind, EncodeValue(v)) == Some(v)
  {
    hide Armored;
  }

  /** The row's sort columns hold values of their types. */
  predicate FitsRow(order: seq<OrderTerm>, kinds: Kinds, row: Row<Value>) {
    forall i :: 0 <= i < |order| ==>
      && order[i].column in row && order[i].column in kinds
      && Fits(kinds[order[i].column], row[order[i].column])
  }

  lemma ValuesRead(order: seq<OrderTerm>, codec: Codec, row: Row<Value>)
    requires Reads(codec) && FitsRow(order, codec.kinds, row) && NoNulls(order, row)
    ensures DecodeValues(order, codec, Printed(Index.KeyValues(order, row))) == Some(Index.KeyValues(order, row))
  {
    hide Reads;
    var key := Index.KeyValues(order, row);
    forall i | 0 <= i < |order|
      ensures Decodable(order, codec, Printed(key), i)
      ensures DecodeValue(codec, codec.kinds[order[i].column], Printed(key)[i]) == Some(key[i])
    {
      ValueReads(codec, codec.kinds[order[i].column], row[order[i].column]);
    }
    DecodesTo(order, codec, Printed(key), key);
  }

  /** What is minted for a row. */
  function PayloadOf(sorts: seq<SortTerm>, order: seq<OrderTerm>, row: Row<Value>): Payload
    requires NoNulls(order, row)
  {
    Payload(Signature(sorts), Printed(Index.KeyValues(order, row)))
  }

  lemma ArmoredOpens(codec: Codec, payload: Payload)
    requires Reads(codec)
    ensures codec.open(Armored(payload)) == Some(payload) && Armored(payload) != ""
    ensures |Armored(payload)| <= MAX_CURSOR_LENGTH <==> |Dumps(payload)| <= MAX_PAYLOAD_LENGTH
  {
    hide Opened;
    OpensArmored(payload);
  }

  /** Decoding a minted cursor gives back the row's exact sort key; exactly the cursors over the
      length limit do not come back, which are those of more than 3072 bytes of payload. */
  lemma CursorReads(sorts: seq<SortTerm>, policy: QueryPolicy, codec: Codec, row: Row<Value>)
    requires Reads(codec)
    requires KeysetColumns(sorts, policy).Some? && NoNulls(KeysetColumns(sorts, policy).value, row)
    requires FitsRow(KeysetColumns(sorts, policy).value, codec.kinds, row)
    ensures Minted(sorts, policy, row).Some? && Minted(sorts, policy, row).value != ""
    ensures var raw := Minted(sorts, policy, row).value;
            Decoded(raw, sorts, policy, codec)
            == if |raw| <= MAX_CURSOR_LENGTH then Index.MintKey(sorts, policy, row) else None
    ensures |Minted(sorts, policy, row).value| <= MAX_CURSOR_LENGTH
            <==> |Dumps(PayloadOf(sorts, KeysetColumns(sorts, policy).value, row))| <= MAX_PAYLOAD_LENGTH
  {
    hide Armored, DecodeValues, Reads, Dumps;
    var order := KeysetColumns(sorts, policy).value;
    ArmoredOpens(codec, PayloadOf(sorts, order, row));
    ValuesRead(order, codec, row);
  }

  // ---- Binding ----

  /** A cursor minted under one sort is rejected under every sort with another signature. */
  lemma CursorIsBound(sorts: seq<SortTerm>, policy: QueryPolicy, row: Row<Value>,
                      others: seq<SortTerm>, otherPolicy: QueryPolicy, codec: Codec)
    requires Reads(codec) && Minted(sorts, policy, row).Some? && Signature(others) != Signature(sorts)
    ensures Decoded(Minted(sorts, policy, row).value, others, otherPolicy, codec).None?
  {
    hide Armored, Reads;
    ArmoredOpens(codec, Payload(Signature(sorts), Printed(Index.MintKey(sorts, policy, row).value)));
  }

  // ---- Cursors over the limit ----

  lemma {:induction false} EscapeLonger(s: string)
    ensures |Escape(s)| >= |s|
  {
    if s != "" {
      CharReads(s[0], "");
      hide EscapeChar;
      EscapeLonger(s[1..]);
    }
  }

  /** The payload is longer than the first value it carries. */
  lemma DumpsLonger(payload: Payload)
    requires payload.values != []
    ensures |Dumps(payload)| > |payload.values[0]|
  {
    EscapeLonger(payload.values[0]);
    hide Escape;
  }

  /** A text column makes cursors that never come back: under `sort=title`, the cursor of a row whose
      title has 3100 characters is minted, is longer than the limit, and decodes to nothing. */
  lemma OverlongCursor(codec: Codec) returns (sorts: seq<SortTerm>, policy: QueryPolicy, row: Row<Value>)
    requires Reads(codec) && "title" in codec.kinds && codec.kinds["title"] == StrKind
    requires "id" in codec.kinds && codec.kinds["id"] == StrKind
    ensures sorts == AppendTieBreaker([SortTerm("title", false, None)], policy)
    ensures KeysetColumns(sorts, policy).Some? && FitsRow(KeysetColumns(sorts, policy).value, codec.kinds, row)
    ensures Minted(sorts, policy, row).Some? && |Minted(sorts, policy, row).value| > MAX_CURSOR_LENGTH
    ensures Decoded(Minted(sorts, policy, row).value, sorts, policy, codec).None?
  {
    var title := seq(3100, _ => 'x');
    sorts := [SortTerm("title", false, None), SortTerm("id", false, None)];
    policy := QueryPolicy(map["title" := "title"], sorts, "id", false, "id",
                          map["title" := SORTABLE, "id" := SORTABLE]);
    row := map["title" := Str(title), "id" := Str("1")];
    assert !IsTie(sorts[0], policy);
    assert sorts == Normalize([sorts[0]]) + [sorts[1]];
    OverlongRow(sorts, policy, codec, row, title);
  }

  lemma OverlongRow(sorts: seq<SortTerm>, policy: QueryPolicy, codec: Codec, row: Row<Value>, text: string)
    requires Reads(codec) && KeysetColumns(sorts, policy).Some? && sorts != []
    requires FitsRow(KeysetColumns(sorts, policy).value, codec.kinds, row)
    requires row[KeysetColumns(sorts, policy).value[0].column] == Str(text) && |text| >= MAX_PAYLOAD_LENGTH
    ensures NoNulls(KeysetColumns(sorts, policy).value, row)
    ensures Minted(sorts, policy, row).Some? && |Minted(sorts, policy, row).value| > MAX_CURSOR_LENGTH
    ensures Decoded(Minted(sorts, policy, row).value, sorts, policy, codec).None?
  {
    hide Reads, Minted, Decoded, Dumps;
    var order := KeysetColumns(sorts, policy).value;
    assert Index.KeyValues(order, row)[0] == Str(text);
    assert PayloadOf(sorts, order, row).values[0] == text;
    DumpsLonger(PayloadOf(sorts, order, row));
    CursorReads(sorts, policy, codec, row);
  }
}
