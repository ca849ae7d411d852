/** The cursor payload as compact JSON text: `{"s":[...],"v":[...]}` with every non-ASCII character
    escaped. */
module CursorText {
  import opened Wrappers

  // ---- Escaped strings ----

  function HexDigit(d: nat): char
    requires d < 16
  {
    if d < 10 then ('0' as int + d) as char else ('a' as int + d - 10) as char
  }

  function HexValue(c: char): (v: Option<nat>)
    ensures v.Some? ==> v.value < 16
  {
    if '0' <= c <= '9' then Some(c as int - '0' as int)
    else if 'a' <= c <= 'f' then Some(c as int - 'a' as int + 10)
    else if 'A' <= c <= 'F' then Some(c as int - 'A' as int + 10)
    else None
  }

  /** A 16-bit code unit as `\uXXXX`. */
  function Unit(n: nat): (s: string)
    requires n < 0x10000
    ensures |s| == 6
  {
    ['\\', 'u', HexDigit(n / 4096), HexDigit(n / 256 % 16), HexDigit(n / 16 % 16), HexDigit(n % 16)]
  }

  /** Reads `\uXXXX` at the front. */
  function ReadUnit(t: string): (n: Option<nat>)
    ensures n.Some? ==> n.value < 0x10000 && |t| >= 6
  {
    if |t| < 6 || t[0] != '\\' || t[1] != 'u' then None
    else
      var a, b, c, d := HexValue(t[2]), HexValue(t[3]), HexValue(t[4]), HexValue(t[5]);
      if a.None? || b.None? || c.None? || d.None? then None
      else Some(a.value * 4096 + b.value * 256 + c.value * 16 + d.value)
  }

  /** What one character becomes inside a JSON string; beyond the basic plane, a surrogate pair. */
  function EscapeChar(c: char): string {
    if c == '"' then "\\\""
    else if c == '\\' then "\\\\"
    else if c == '\n' then "\\n"
    else if c == '\r' then "\\r"
    else if c == '\t' then "\\t"
    else if c == 8 as char then "\\b"
    else if c == 12 as char then "\\f"
    else if ' ' <= c <= '~' then [c]
    else if (c as int) < 0x10000 then Unit(c as int)
    else Unit(0xD800 + (c as int - 0x10000) / 0x400) + Unit(0xDC00 + (c as int - 0x10000) % 0x400)
  }

  predicate HighSurrogate(n: nat) {
    0xD800 <= n < 0xDC00
  }

  predicate LowSurrogate(n: nat) {
    0xDC00 <= n < 0xE000
  }

  function Simple(c: char): Option<char> {
    match c
    case '"' => Some('"')
    case '\\' => Some('\\')
    case '/' => Some('/')
    case 'n' => Some('\n')
    case 'r' => Some('\r')
    case 't' => Some('\t')
    case 'b' => Some(8 as char)
    case 'f' => Some(12 as char)
    case _ => None
  }

  /** One character of a JSON string and how much text it took; None at a quote, a control character
      or a broken escape. */
  function ReadChar(t: string): (r: Option<(char, nat)>)
    ensures r.Some? ==> 1 <= r.value.1 <= |t|
  {
    if t == "" || t[0] == '"' || t[0] < ' ' then None
    else if t[0] != '\\' then Some((t[0], 1))
    else if |t| > 1 && Simple(t[1]).Some? then Some((Simple(t[1]).value, 2))
    else
      var high := ReadUnit(t);
      if high.None? || LowSurrogate(high.value) then None
      else if !HighSurrogate(high.value) then Some((high.value as char, 6))
      else
        var low := ReadUnit(t[6..]);
        if low.None? || !LowSurrogate(low.value) then None
        else Some(((0x10000 + (high.value - 0xD800) * 0x400 + (low.value - 0xDC00)) as char, 12))
  }

  function Escape(s: string): string {
    if s == "" then "" else EscapeChar(s[0]) + Escape(s[1..])
  }

  function Quoted(s: string): string {
    "\"" + Escape(s) + "\""
  }

  /** The text up to the closing quote, and what follows it. */
  function ReadString(t: string): (r: Option<(string, string)>)
    ensures r.Some? ==> |r.value.1| < |t|
    decreases |t|
  {
    if t != "" && t[0] == '"' then Some(("", t[1..]))
    else
      var c := ReadChar(t);
      if c.None? then None
      else
        var rest := ReadString(t[c.value.1..]);
        if rest.None? then None else Some(([c.value.0] + rest.value.0, rest.value.1))
  }

  lemma HexReads(d: nat)
    requires d < 16
    ensures HexValue(HexDigit(d)) == Some(d)
  {}

  lemma UnitReads(n: nat, rest: string)
    requires n < 0x10000
    ensures ReadUnit(Unit(n) + rest) == Some(n)
  {
    HexReads(n / 4096);
    HexReads(n / 256 % 16);
    HexReads(n / 16 % 16);
    HexReads(n % 16);
    hide HexDigit, HexValue;
    var t := Unit(n) + rest;
    assert t[0] == '\\' && t[1] == 'u' && t[2] == HexDigit(n / 4096) && t[3] == HexDigit(n / 256 % 16)
        && t[4] == HexDigit(n / 16 % 16) && t[5] == HexDigit(n % 16);
    Nibbles(n);
  }

  lemma Nibbles(n: nat)
    requires n < 0x10000
    ensures n / 4096 * 4096 + n / 256 % 16 * 256 + n / 16 % 16 * 16 + n % 16 == n
  {
    assert n / 256 == n / 4096 * 16 + n / 256 % 16;
    assert n / 16 == n / 256 * 16 + n / 16 % 16;
  }

  lemma CharReads(c: char, rest: string)
    ensures EscapeChar(c) != "" && EscapeChar(c)[0] != '"'
    ensures ReadChar(EscapeChar(c) + rest) == Some((c, |EscapeChar(c)|))
    ensures |EscapeChar(c)| <= 12
  {
    hide Unit, ReadUnit;
    var t := EscapeChar(c) + rest;
    if c in "\"\\\n\r\t" || c == 8 as char || c == 12 as char {
      assert t[1] == EscapeChar(c)[1];
    } else if !(' ' <= c <= '~') {
      if (c as int) < 0x10000 {
        UnitStarts(c as int, rest);
        UnitReads(c as int, rest);
      } else {
        PairReads(c, rest);
      }
    }
  }

  lemma UnitStarts(n: nat, rest: string)
    requires n < 0x10000
    ensures Unit(n)[0] == '\\' && (Unit(n) + rest)[1] == 'u'
  {}

  lemma PairReads(c: char, rest: string)
    requires c as int >= 0x10000
    ensures EscapeChar(c)[0] == '\\' && |EscapeChar(c)| == 12
    ensures ReadChar(EscapeChar(c) + rest) == Some((c, 12))
  {
    hide Unit, ReadUnit;
    var n := c as int - 0x10000;
    var high, low := 0xD800 + n / 0x400, 0xDC00 + n % 0x400;
    var t := EscapeChar(c) + rest;
    assert t == Unit(high) + (Unit(low) + rest);
    assert t[6..] == Unit(low) + rest;
    UnitStarts(high, Unit(low) + rest);
    UnitReads(high, Unit(low) + rest);
    UnitReads(low, rest);
  }

  lemma {:induction false} StringReads(s: string, rest: string)
    ensures ReadString(Escape(s) + "\"" + rest) == Some((s, rest))
    decreases |s|
  {
    hide EscapeChar, ReadChar;
    var t := Escape(s) + "\"" + rest;
    if s == "" {
      assert t == "\"" + rest;
    } else {
      var more := Escape(s[1..]) + "\"" + rest;
      CharReads(s[0], more);
      assert t == EscapeChar(s[0]) + more;
      assert t[|EscapeChar(s[0])|..] == more;
      StringReads(s[1..], rest);
      assert [s[0]] + s[1..] == s;
    }
  }

  // ---- Lists of strings ----

  /** The items and the closing bracket. */
  function Items(xs: seq<string>): string {
    if xs == [] then "]"
    else Quoted(xs[0]) + (if |xs| == 1 then "]" else "," + Items(xs[1..]))
  }

  function List(xs: seq<string>): string {
    "[" + Items(xs)
  }

  /** A non-empty list of strings after its opening bracket or a comma. */
  function ReadItems(t: string): Option<(seq<string>, string)>
    decreases |t|
  {
    if t == "" || t[0] != '"' then None
    else
      var first := ReadString(t[1..]);
      if first.None? || first.value.1 == "" then None
      else
        var next := first.value.1[1..];
        if first.value.1[0] == ']' then Some(([first.value.0], next))
        else if first.value.1[0] != ',' then None
        else
          var rest := ReadItems(next);
          if rest.None? then None else Some(([first.value.0] + rest.value.0, rest.value.1))
  }

  function ReadList(t: string): Option<(seq<string>, string)> {
    if t == "" || t[0] != '[' then None
    else if |t| > 1 && t[1] == ']' then Some(([], t[2..]))
    else ReadItems(t[1..])
  }

  lemma ReadLast(e: string, x: string, rest: string)
    requires ReadString(e + "\"" + ("]" + rest)) == Some((x, "]" + rest))
    ensures ReadItems("\"" + e + "\"" + "]" + rest) == Some(([x], rest))
  {
    hide ReadString;
    var t := "\"" + e + "\"" + "]" + rest;
    assert t[1..] == e + "\"" + ("]" + rest);
    assert ("]" + rest)[1..] == rest;
  }

  lemma ReadMore(e: string, x: string, more: string, xs: seq<string>, rest: string)
    requires ReadString(e + "\"" + ("," + (more + rest))) == Some((x, "," + (more + rest)))
    requires ReadItems(more + rest) == Some((xs, rest))
    ensures ReadItems("\"" + e + "\"" + ("," + more) + rest) == Some(([x] + xs, rest))
  {
    hide ReadString;
    var t := "\"" + e + "\"" + ("," + more) + rest;
    assert t[1..] == e + "\"" + ("," + (more + rest));
    assert ("," + (more + rest))[1..] == more + rest;
  }

  lemma {:induction false} ItemsRead(xs: seq<string>, rest: string)
    requires xs != []
    ensures ReadItems(Items(xs) + rest) == Some((xs, rest))
    decreases |xs|
  {
    hide ReadString, Escape, ReadItems;
    if |xs| == 1 {
      StringReads(xs[0], "]" + rest);
      ReadLast(Escape(xs[0]), xs[0], rest);
      assert xs == [xs[0]];
    } else {
      StringReads(xs[0], "," + (Items(xs[1..]) + rest));
      ItemsRead(xs[1..], rest);
      ReadMore(Escape(xs[0]), xs[0], Items(xs[1..]), xs[1..], rest);
      assert xs == [xs[0]] + xs[1..];
    }
  }

  lemma ListReads(xs: seq<string>, rest: string)
    ensures ReadList(List(xs) + rest) == Some((xs, rest))
  {
    hide ReadItems;
    var t := List(xs) + rest;
    assert t[1..] == Items(xs) + rest;
    if xs == [] {
      assert t[2..] == rest;
    } else {
      ItemsRead(xs, rest);
      assert t[1] == '"';
    }
  }

  // ---- The payload ----

  datatype Payload = Payload(signature: seq<string>, values: seq<string>)

  function Dumps(payload: Payload): string {
    "{\"s\":" + List(payload.signature) + ",\"v\":" + List(payload.values) + "}"
  }

  /** What follows a fixed piece of text, if the text starts with it. */
  function After(t: string, prefix: string): Option<string> {
    if prefix <= t then Some(t[|prefix|..]) else None
  }

  function Loads(t: string): Option<Payload> {
    var first := After(t, "{\"s\":");
    if first.None? then None
    else
      var signature := ReadList(first.value);
      if signature.None? then None
      else
        var second := After(signature.value.1, ",\"v\":");
        if second.None? then None
        else
          var values := ReadList(second.value);
          if values.None? || values.value.1 != "}" then None
          else Some(Payload(signature.value.0, values.value.0))
  }

  /** Reading back what was written. */
  lemma LoadsDumps(payload: Payload)
    ensures Loads(Dumps(payload)) == Some(payload)
  {
    hide ReadList, List;
    var rest := ",\"v\":" + (List(payload.values) + "}");
    assert Dumps(payload) == "{\"s\":" + (List(payload.signature) + rest);
    ListReads(payload.signature, rest);
    ListReads(payload.values, "}");
    AfterPrefix("{\"s\":", List(payload.signature) + rest);
    AfterPrefix(",\"v\":", List(payload.values) + "}");
    assert List(payload.values) + "}" + "" == List(payload.values) + "}";
  }

  lemma AfterPrefix(prefix: string, rest: string)
    ensures After(prefix + rest, prefix) == Some(rest)
  {}

  // ---- Its length and its characters ----

  predicate Ascii(s: string) {
    forall i :: 0 <= i < |s| ==> (s[i] as int) < 128
  }

  lemma CharIsAscii(c: char)
    ensures Ascii(EscapeChar(c))
  {}

  lemma {:induction false} EscapeIsAscii(s: string)
    ensures Ascii(Escape(s)) && |Escape(s)| <= 12 * |s|
  {
    if s != "" {
      CharIsAscii(s[0]);
      CharReads(s[0], "");
      hide EscapeChar;
      EscapeIsAscii(s[1..]);
    }
  }

  /** Printable ASCII without quotes and backslashes is written as it is. */
  predicate PlainText(s: string) {
    forall i :: 0 <= i < |s| ==> ' ' <= s[i] <= '~' && s[i] != '"' && s[i] != '\\'
  }

  lemma {:induction false} EscapePlain(s: string)
    requires PlainText(s)
    ensures Escape(s) == s
  {
    if s != "" {
      EscapePlain(s[1..]);
    }
  }

  /** The length of the strings with their quotes and one separator each. */
  function Written(xs: seq<string>): nat {
    if xs == [] then 0 else |Escape(xs[0])| + 3 + Written(xs[1..])
  }

  lemma {:induction false} ItemsLength(xs: seq<string>)
    ensures |Items(xs)| <= Written(xs) + 1 && Ascii(Items(xs))
    decreases |xs|
  {
    if xs != [] {
      EscapeIsAscii(xs[0]);
      hide Escape;
      ItemsLength(xs[1..]);
    }
  }

  lemma DumpsLength(payload: Payload)
    ensures |Dumps(payload)| <= Written(payload.signature) + Written(payload.values) + 15
    ensures Ascii(Dumps(payload))
  {
    ItemsLength(payload.signature);
    ItemsLength(payload.values);
    hide Items, Written;
  }

  // ---- Which text that is ----

  predicate IsPlain(s: string) {
    forall i :: 0 <= i < |s| ==> ' ' <= s[i] <= '~' && s[i] != '"' && s[i] != '\\'
  }

  lemma ListIs(a: string, b: string)
    requires IsPlain(a) && IsPlain(b)
    ensures List([a, b]) == "[\"" + a + "\",\"" + b + "\"]"
  {
    PlainEscape(a);
    PlainEscape(b);
    assert [a, b][1..] == [b];
    hide Escape;
    assert Items([b]) == Quoted(b) + "]";
    assert Items([a, b]) == Quoted(a) + ("," + Items([b]));
  }

  /** No blanks, double quotes around every string, the signature first. */
  lemma DumpsIs(a: string, b: string, c: string, d: string)
    requires IsPlain(a) && IsPlain(b) && IsPlain(c) && IsPlain(d)
    ensures Dumps(Payload([a, b], [c, d]))
            == "{\"s\":" + ("[\"" + a + "\",\"" + b + "\"]") + ",\"v\":" + ("[\"" + c + "\",\"" + d + "\"]") + "}"
  {
    ListIs(a, b);
    ListIs(c, d);
    hide List;
  }

  /** Printable ASCII but for quotes and backslashes is written as it is. */
  lemma {:induction false} PlainEscape(s: string)
    requires IsPlain(s)
    ensures Escape(s) == s
  {
    if s != "" {
      PlainEscape(s[1..]);
      assert s == [s[0]] + s[1..];
    }
  }

  /** Quotes and backslashes get a backslash; other characters their code units, in four lower-case digits. */
  lemma EscapesAre()
    ensures EscapeChar('"') == "\\\"" && EscapeChar('\\') == "\\\\" && EscapeChar('\n') == "\\n"
    ensures EscapeChar(0xE9 as char) == "\\u00e9" && EscapeChar(0x7F as char) == "\\u007f"
    ensures EscapeChar(0x20AC as char) == "\\u20ac"
    ensures EscapeChar(0x1F600 as char) == "\\ud83d\\ude00"
  {}
}
