/** Quoted strings in header values: splitting outside quotes, unquoting, and parameter lists. */
module Quoting {
  import opened Wrappers

  // ---- Where the quotes are ----

  datatype Mode = Plain | Quoted | Escaped

  function Next(mode: Mode, c: char): Mode {
    match mode
    case Escaped => Quoted
    case Quoted => if c == '\\' then Escaped else if c == '"' then Plain else Quoted
    case Plain => if c == '"' then Quoted else Plain
  }

  function ModeFrom(mode: Mode, s: string): Mode
    decreases |s|
  {
    if s == [] then mode else Next(ModeFrom(mode, s[..|s| - 1]), s[|s| - 1])
  }

  /** The state of the scan after `s`. */
  function ModeAfter(s: string): Mode {
    ModeFrom(Plain, s)
  }

  predicate Balanced(s: string) {
    ModeAfter(s) == Plain
  }

  predicate Cuts(c: char, delimiter: char, mode: Mode) {
    mode == Plain && c == delimiter && c != '"'
  }

  /** No delimiter stands outside quotes. */
  ghost predicate Bare(s: string, delimiter: char) {
    forall i :: 0 <= i < |s| ==> !Cuts(s[i], delimiter, ModeAfter(s[..i]))
  }

  lemma {:induction false} ModeAppend(mode: Mode, a: string, b: string)
    ensures ModeFrom(mode, a + b) == ModeFrom(ModeFrom(mode, a), b)
    decreases |b|
  {
    if b == [] {
      assert a + b == a;
    } else {
      assert (a + b)[..|a + b| - 1] == a + b[..|b| - 1];
      ModeAppend(mode, a, b[..|b| - 1]);
    }
  }

  // ---- Splitting ----

  /** The last part with more text. */
  function WithTail(parts: seq<string>, tail: string): seq<string>
    requires parts != []
  {
    parts[..|parts| - 1] + [parts[|parts| - 1] + tail]
  }

  /** The parts so far, the last one still open. */
  function Parts(s: string, delimiter: char): (parts: seq<string>)
    ensures parts != []
    decreases |s|
  {
    if s == [] then [""]
    else
      var before, c := Parts(s[..|s| - 1], delimiter), s[|s| - 1];
      if Cuts(c, delimiter, ModeAfter(s[..|s| - 1])) then before + [""] else WithTail(before, [c])
  }

  lemma PartsNext(s: string, c: char, delimiter: char)
    ensures Parts(s + [c], delimiter)
            == if Cuts(c, delimiter, ModeAfter(s)) then Parts(s, delimiter) + [""]
               else WithTail(Parts(s, delimiter), [c])
    ensures ModeAfter(s + [c]) == Next(ModeAfter(s), c)
  {
    assert (s + [c])[..|s|] == s;
  }

  function Split(s: string, delimiter: char): Option<seq<string>> {
    if Balanced(s) then Some(Parts(s, delimiter)) else None
  }

  method SplitQuoted(value: string, delimiter: char) returns (result: Option<seq<string>>)
    ensures result == Split(value, delimiter)
  {
    var parts: seq<string> := [];
    var current := "";
    var quoted, escaped := false, false;
    for i := 0 to |value|
      invariant parts + [current] == Parts(value[..i], delimiter)
      invariant ModeAfter(value[..i]) == if escaped then Escaped else if quoted then Quoted else Plain
      invariant escaped ==> quoted
    {
      var c := value[i];
      assert value[..i + 1][..i] == value[..i];
      if escaped {
        current, escaped := current + [c], false;
      } else if quoted && c == '\\' {
        current, escaped := current + [c], true;
      } else if c == '"' {
        current, quoted := current + [c], !quoted;
      } else if c == delimiter && !quoted {
        parts, current := parts + [current], "";
      } else {
        current := current + [c];
      }
    }
    assert value[..|value|] == value;
    if quoted || escaped {
      return None;
    }
    parts := parts + [current];
    result := Some(parts);
  }

  function Join(parts: seq<string>, delimiter: char): string
    requires parts != []
    decreases |parts|
  {
    if |parts| == 1 then parts[0]
    else Join(parts[..|parts| - 1], delimiter) + [delimiter] + parts[|parts| - 1]
  }

  /** Extending the last part extends the joined text. */
  lemma JoinTail(parts: seq<string>, tail: string, delimiter: char)
    requires parts != []
    ensures Join(WithTail(parts, tail), delimiter) == Join(parts, delimiter) + tail
  {
    var init, end := parts[..|parts| - 1], parts[|parts| - 1];
    assert WithTail(parts, tail)[..|init|] == init;
    if init != [] {
      assert Join(init, delimiter) + [delimiter] + (end + tail) == Join(init, delimiter) + [delimiter] + end + tail;
    }
  }

  lemma JoinOpen(parts: seq<string>, delimiter: char)
    requires parts != []
    ensures Join(parts + [""], delimiter) == Join(parts, delimiter) + [delimiter]
  {
    assert (parts + [""])[..|parts|] == parts;
  }

  /** Joining the parts gives the input back. */
  lemma {:induction false} JoinSplit(s: string, delimiter: char)
    ensures Join(Parts(s, delimiter), delimiter) == s
    decreases |s|
  {
    if s != [] {
      hide Join, Parts, WithTail, Cuts;
      var init, c := s[..|s| - 1], s[|s| - 1];
      assert s == init + [c];
      JoinSplit(init, delimiter);
      PartsNext(init, c, delimiter);
      JoinOpen(Parts(init, delimiter), delimiter);
      JoinTail(Parts(init, delimiter), [c], delimiter);
      assert Cuts(c, delimiter, ModeAfter(init)) ==> c == delimiter by {
        CutIsDelimiter(c, delimiter, ModeAfter(init));
      }
    }
  }

  lemma CutIsDelimiter(c: char, delimiter: char, mode: Mode)
    ensures Cuts(c, delimiter, mode) ==> c == delimiter
  {}

  /** Every part but the last is balanced, no part holds a delimiter outside quotes, and the last
      part leaves the scan in the given mode. */
  ghost predicate Sound(parts: seq<string>, delimiter: char, mode: Mode) {
    && parts != []
    && (forall k :: 0 <= k < |parts| ==> Bare(parts[k], delimiter))
    && (forall k :: 0 <= k < |parts| - 1 ==> Balanced(parts[k]))
    && ModeAfter(parts[|parts| - 1]) == mode
  }

  lemma {:induction false} PartsAreSound(s: string, delimiter: char)
    ensures Sound(Parts(s, delimiter), delimiter, ModeAfter(s))
    decreases |s|
  {
    if s != [] {
      hide Parts, Bare, ModeFrom, Sound;
      var init, c := s[..|s| - 1], s[|s| - 1];
      assert s == init + [c];
      PartsAreSound(init, delimiter);
      PartsNext(init, c, delimiter);
      SoundNext(Parts(init, delimiter), c, delimiter, ModeAfter(init));
    }
  }

  lemma SoundNext(parts: seq<string>, c: char, delimiter: char, mode: Mode)
    requires Sound(parts, delimiter, mode)
    ensures Sound(if Cuts(c, delimiter, mode) then parts + [""] else WithTail(parts, [c]), delimiter, Next(mode, c))
  {
    if !Cuts(c, delimiter, mode) {
      BareExtend(parts[|parts| - 1], c, delimiter);
    } else {
      assert Bare("", delimiter) && ModeAfter("") == Plain;
    }
  }

  lemma BareExtend(s: string, c: char, delimiter: char)
    requires Bare(s, delimiter) && !Cuts(c, delimiter, ModeAfter(s))
    ensures Bare(s + [c], delimiter) && ModeAfter(s + [c]) == Next(ModeAfter(s), c)
  {
    assert (s + [c])[..|s|] == s;
    forall i | 0 <= i < |s + [c]| ensures !Cuts((s + [c])[i], delimiter, ModeAfter((s + [c])[..i])) {
      if i < |s| { assert (s + [c])[..i] == s[..i]; }
    }
  }

  lemma TailNone(parts: seq<string>)
    requires parts != []
    ensures WithTail(parts, "") == parts
  {
    assert parts[|parts| - 1] + "" == parts[|parts| - 1];
  }

  lemma TailTwice(parts: seq<string>, a: string, b: string)
    requires parts != []
    ensures WithTail(WithTail(parts, a), b) == WithTail(parts, a + b)
  {
    assert parts[|parts| - 1] + a + b == parts[|parts| - 1] + (a + b);
  }

  lemma BareShorter(part: string, c: char, delimiter: char)
    requires Bare(part + [c], delimiter)
    ensures Bare(part, delimiter) && !Cuts(c, delimiter, ModeAfter(part))
  {
    assert forall i :: 0 <= i <= |part| ==> (part + [c])[..i] == part[..i];
    assert part[..|part|] == part && (part + [c])[|part|] == c;
    forall i | 0 <= i < |part| ensures !Cuts(part[i], delimiter, ModeAfter(part[..i])) {
      assert (part + [c])[i] == part[i];
    }
  }

  /** Splitting a text that ends in a sound part. */
  lemma {:induction false} PartsAppend(s: string, part: string, delimiter: char)
    requires Balanced(s) && Bare(part, delimiter)
    ensures Parts(s + part, delimiter) == WithTail(Parts(s, delimiter), part)
    ensures ModeAfter(s + part) == ModeAfter(part)
    decreases |part|
  {
    ModeAppend(Plain, s, part);
    if part == [] {
      assert s + part == s;
      TailNone(Parts(s, delimiter));
    } else {
      hide Parts, WithTail, Cuts, Bare, ModeFrom, Next;
      var init, c := part[..|part| - 1], part[|part| - 1];
      assert part == init + [c];
      assert s + part == (s + init) + [c];
      BareShorter(init, c, delimiter);
      PartsAppend(s, init, delimiter);
      PartsNext(s + init, c, delimiter);
      TailTwice(Parts(s, delimiter), init, [c]);
    }
  }

  /** Splitting any join of sound parts gives the parts back. */
  lemma {:induction false} SplitJoin(parts: seq<string>, delimiter: char)
    requires parts != [] && delimiter != '"'
    requires forall k :: 0 <= k < |parts| ==> Bare(parts[k], delimiter) && Balanced(parts[k])
    ensures Split(Join(parts, delimiter), delimiter) == Some(parts)
    decreases |parts|
  {
    if |parts| == 1 {
      SplitOne(parts[0], delimiter);
      assert parts == [parts[0]];
    } else {
      hide Parts, Bare, ModeFrom;
      var init, part := parts[..|parts| - 1], parts[|parts| - 1];
      SplitJoin(init, delimiter);
      SplitNext(init, part, Join(init, delimiter), delimiter);
      assert init + [part] == parts;
    }
  }

  lemma SplitOne(part: string, delimiter: char)
    requires Bare(part, delimiter) && Balanced(part)
    ensures Split(part, delimiter) == Some([part])
  {
    PartsAppend("", part, delimiter);
    assert "" + part == part;
    assert Parts("", delimiter) == [""] && WithTail([""], part) == [part];
  }

  lemma SplitNext(init: seq<string>, part: string, joined: string, delimiter: char)
    requires init != [] && delimiter != '"' && Split(joined, delimiter) == Some(init)
    requires Bare(part, delimiter) && Balanced(part)
    ensures Split(joined + [delimiter] + part, delimiter) == Some(init + [part])
  {
    hide Parts, Bare, ModeFrom;
    PartsNext(joined, delimiter, delimiter);
    PartsAppend(joined + [delimiter], part, delimiter);
    assert "" + part == part;
    assert WithTail(init + [""], part) == init + [part];
  }

  /** A list split at one delimiter can always be split again at another. */
  lemma InnerSplitSucceeds(s: string, outer: char, inner: char)
    requires Split(s, outer).Some?
    ensures forall k :: 0 <= k < |Split(s, outer).value| ==> Split(Split(s, outer).value[k], inner).Some?
  {
    PartsAreSound(s, outer);
  }

  // ---- Unquoting ----

  predicate TokenChar(c: char) {
    c in "!#$%&'*+.^_`|~-" || '0' <= c <= '9' || 'A' <= c <= 'Z' || 'a' <= c <= 'z'
  }

  predicate IsToken(s: string) {
    s != "" && forall i :: 0 <= i < |s| ==> TokenChar(s[i])
  }

  /** The text between the quotes with escapes undone, and whether an escape is pending. */
  function Inner(s: string): Option<(string, bool)>
    decreases |s|
  {
    if s == [] then Some(("", false))
    else
      var before, c := Inner(s[..|s| - 1]), s[|s| - 1];
      if before.None? then None
      else if before.value.1 then Some((before.value.0 + [c], false))
      else if c == '\\' then Some((before.value.0, true))
      else if c == '"' then None
      else Some((before.value.0 + [c], false))
  }

  function Unquoted(value: string): Option<string> {
    if value == "" || value[0] != '"' then (if IsToken(value) then Some(value) else None)
    else if |value| < 2 || value[|value| - 1] != '"' then None
    else
      var inner := Inner(value[1..|value| - 1]);
      if inner.None? || inner.value.1 then None else Some(inner.value.0)
  }

  lemma {:induction false} InnerFails(s: string, i: nat)
    requires i <= |s| && Inner(s[..i]).None?
    ensures Inner(s).None?
    decreases |s| - i
  {
    if i < |s| {
      assert s[..i + 1][..i] == s[..i];
      InnerFails(s, i + 1);
    } else {
      assert s[..i] == s;
    }
  }

  method UnquoteParameter(value: string) returns (result: Option<string>)
    ensures result == Unquoted(value)
  {
    if value == "" || value[0] != '"' {
      return if IsToken(value) then Some(value) else None;
    }
    if |value| < 2 || value[|value| - 1] != '"' {
      return None;
    }
    var inner := value[1..|value| - 1];
    var unquoted, escaped := "", false;
    for i := 0 to |inner|
      invariant Inner(inner[..i]) == Some((unquoted, escaped))
    {
      assert inner[..i + 1][..i] == inner[..i];
      if escaped {
        unquoted, escaped := unquoted + [inner[i]], false;
      } else if inner[i] == '\\' {
        escaped := true;
      } else if inner[i] == '"' {
        InnerFails(inner, i + 1);
        return None;
      } else {
        unquoted := unquoted + [inner[i]];
      }
    }
    assert inner[..|inner|] == inner;
    result := if escaped then None else Some(unquoted);
  }

  function Escaping(s: string): string
    decreases |s|
  {
    if s == [] then ""
    else
      var c := s[|s| - 1];
      Escaping(s[..|s| - 1]) + (if c == '"' || c == '\\' then ['\\', c] else [c])
  }

  function Quote(s: string): string {
    "\"" + Escaping(s) + "\""
  }

  lemma InnerNext(s: string, c: char, done: string, pending: bool)
    requires Inner(s) == Some((done, pending)) && (pending || c != '"')
    ensures Inner(s + [c]) == if !pending && c == '\\' then Some((done, true)) else Some((done + [c], false))
  {
    assert (s + [c])[..|s|] == s;
  }

  lemma {:induction false} InnerEscaping(s: string)
    ensures Inner(Escaping(s)) == Some((s, false))
    decreases |s|
  {
    if s != [] {
      hide Inner;
      var init, c := s[..|s| - 1], s[|s| - 1];
      assert s == init + [c];
      InnerEscaping(init);
      var e := Escaping(init);
      if c == '"' || c == '\\' {
        InnerNext(e, '\\', init, false);
        InnerNext(e + ['\\'], c, init, true);
        assert e + ['\\', c] == e + ['\\'] + [c];
      } else {
        InnerNext(e, c, init, false);
      }
    } else {
      assert Escaping(s) == "";
    }
  }

  /** Escaping and quoting any string, then unquoting, is the identity. */
  lemma UnquoteQuote(s: string)
    ensures Unquoted(Quote(s)) == Some(s)
  {
    InnerEscaping(s);
    assert Quote(s)[1..|Quote(s)| - 1] == Escaping(s);
  }

  /** While the inside of a quoted string is read, the scan never leaves the quotes. */
  lemma {:induction false} InnerMode(s: string)
    requires Inner(s).Some?
    ensures ModeFrom(Quoted, s) == if Inner(s).value.1 then Escaped else Quoted
    decreases |s|
  {
    if s != [] { InnerMode(s[..|s| - 1]); }
  }

  /** Whatever unquotes is balanced and holds no delimiter outside quotes, so a parameter value never
      disturbs the splitting around it. */
  lemma UnquotedIsSound(value: string, delimiter: char)
    requires Unquoted(value).Some? && !TokenChar(delimiter)
    ensures Balanced(value) && Bare(value, delimiter)
  {
    if value[0] == '"' {
      var inner := value[1..|value| - 1];
      forall i | 0 < i < |value|
        ensures ModeAfter(value[..i]) != Plain && (i == |value| - 1 ==> ModeAfter(value[..i]) == Quoted)
      {
        QuotedInside(value, i);
      }
      assert value[..|value| - 1] + ['"'] == value;
    } else {
      TokenIsPlain(value);
    }
  }

  lemma QuotedInside(value: string, i: nat)
    requires Unquoted(value).Some? && value[0] == '"' && 0 < i < |value|
    ensures ModeAfter(value[..i]) != Plain
    ensures i == |value| - 1 ==> ModeAfter(value[..i]) == Quoted
  {
    var inner := value[1..|value| - 1];
    var read := inner[..i - 1];
    if Inner(read).None? { InnerFails(inner, i - 1); }
    InnerMode(read);
    assert value[..i] == ['"'] + read;
    ModeAppend(Plain, ['"'], read);
    assert ['"'][..0] == [];
    assert ModeFrom(Plain, ['"']) == Quoted;
    assert i == |value| - 1 ==> read == inner;
  }

  lemma {:induction false} TokenIsPlain(s: string)
    requires forall i :: 0 <= i < |s| ==> TokenChar(s[i])
    ensures forall i :: 0 <= i <= |s| ==> ModeAfter(s[..i]) == Plain
    decreases |s|
  {
    if s == [] {
      assert s[..0] == [];
    } else {
      var init := s[..|s| - 1];
      TokenIsPlain(init);
      assert init[..|init|] == init && s[..|s|] == s;
      assert TokenChar(s[|s| - 1]);
      forall i | 0 <= i <= |s| ensures ModeAfter(s[..i]) == Plain {
        if i < |s| { assert s[..i] == init[..i]; }
      }
    }
  }

  // ---- Exactly what unquotes ----

  /** The inside of a quoted string spells a text: every character as itself or after a backslash, quotes and
      backslashes only after one. */
  ghost predicate Spells(inside: string, text: string)
    decreases |text|
  {
    if text == "" then inside == ""
    else
      var init, c := text[..|text| - 1], text[|text| - 1];
      || (inside != "" && inside[|inside| - 1] == c && c != '"' && c != '\\' && Spells(inside[..|inside| - 1], init))
      || (|inside| >= 2 && inside[|inside| - 2..] == ['\\', c] && Spells(inside[..|inside| - 2], init))
  }

  /** What has been read so far, and a pending backslash. */
  ghost predicate ReadSoFar(inside: string, text: string, pending: bool) {
    if pending then inside != "" && inside[|inside| - 1] == '\\' && Spells(inside[..|inside| - 1], text)
    else Spells(inside, text)
  }

  lemma {:induction false} InnerSpells(inside: string, text: string, pending: bool)
    requires Inner(inside) == Some((text, pending))
    ensures ReadSoFar(inside, text, pending)
    decreases |inside|
  {
    if inside != "" {
      var init, c := inside[..|inside| - 1], inside[|inside| - 1];
      var before := Inner(init).value;
      InnerSpells(init, before.0, before.1);
      hide Inner;
      if before.1 {
        assert inside[..|inside| - 2] == init[..|init| - 1] && inside[|inside| - 2..] == ['\\', c];
        assert text == before.0 + [c];
      } else if !pending {
        assert text == before.0 + [c];
      }
    }
  }

  lemma {:induction false} SpelledReads(inside: string, text: string)
    requires Spells(inside, text)
    ensures Inner(inside) == Some((text, false))
    decreases |text|
  {
    if text != "" {
      var init, c := text[..|text| - 1], text[|text| - 1];
      assert text == init + [c];
      if inside[|inside| - 1] == c && c != '"' && c != '\\' && Spells(inside[..|inside| - 1], init) {
        SpelledReads(inside[..|inside| - 1], init);
        hide Inner, Spells;
        InnerNext(inside[..|inside| - 1], c, init, false);
        assert inside == inside[..|inside| - 1] + [c];
      } else {
        var before := inside[..|inside| - 2];
        SpelledReads(before, init);
        hide Inner, Spells;
        InnerNext(before, '\\', init, false);
        InnerNext(before + ['\\'], c, init, true);
        assert inside == before + ['\\'] + [c];
      }
    }
  }

  /** A token holds what section 5.6.2 of RFC 9110 allows: printable ASCII but for the delimiters. */
  lemma TokenIs(s: string)
    ensures IsToken(s)
            <==> s != "" && forall c :: c in s ==> '!' <= c <= '~' && c !in "\"(),/:;<=>?@[\\]{}"
  {
    forall c ensures TokenChar(c) <==> '!' <= c <= '~' && c !in "\"(),/:;<=>?@[\\]{}" {
      TokenCharIs(c);
    }
  }

  lemma TokenCharIs(c: char)
    ensures TokenChar(c) <==> '!' <= c <= '~' && c !in "\"(),/:;<=>?@[\\]{}"
  {}

  /** A value unquotes to a text if and only if it is that text and a token, or a quoted spelling of it. */
  lemma UnquotedIs(value: string, text: string)
    ensures Unquoted(value) == Some(text)
            <==> (IsToken(value) && text == value)
                 || (|value| >= 2 && value[0] == '"' && value[|value| - 1] == '"'
                     && Spells(value[1..|value| - 1], text))
  {
    assert IsToken(value) ==> TokenChar(value[0]);
    if |value| >= 2 && value[0] == '"' && value[|value| - 1] == '"' {
      var inside := value[1..|value| - 1];
      if Inner(inside) == Some((text, false)) { InnerSpells(inside, text, false); }
      if Spells(inside, text) { SpelledReads(inside, text); }
    }
  }
}
