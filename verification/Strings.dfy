/** Splitting and searching text. */
module Strings {
  /** The first index of `c`, or the length. */
  function IndexOf(s: string, c: char): (i: nat)
    ensures i <= |s| && (i < |s| ==> s[i] == c)
  {
    if s == "" || s[0] == c then 0 else IndexOf(s[1..], c) + 1
  }

  lemma {:induction false} IndexOfAppend(s: string, c: char, rest: string)
    requires c !in s
    ensures IndexOf(s + [c] + rest, c) == |s|
  {
    if s != "" {
      assert (s + [c] + rest)[1..] == s[1..] + [c] + rest;
      IndexOfAppend(s[1..], c, rest);
    }
  }

  /** `s.split(",")`. */
  function SplitComma(s: string): (tokens: seq<string>)
    ensures tokens != []
    decreases |s|
  {
    if s == "" then [""]
    else
      var before, c := SplitComma(s[..|s| - 1]), s[|s| - 1];
      if c == ',' then before + [""] else before[..|before| - 1] + [before[|before| - 1] + [c]]
  }

  /** Texts joined by commas. */
  function JoinComma(tokens: seq<string>): string
    requires tokens != []
    decreases |tokens|
  {
    if |tokens| == 1 then tokens[0] else JoinComma(tokens[..|tokens| - 1]) + "," + tokens[|tokens| - 1]
  }

  lemma {:induction false} SplitAppend(s: string, token: string)
    requires ',' !in token
    ensures var before := SplitComma(s);
            SplitComma(s + token) == before[..|before| - 1] + [before[|before| - 1] + token]
    decreases |token|
  {
    var before := SplitComma(s);
    if token == "" {
      assert s + token == s && before[|before| - 1] + "" == before[|before| - 1];
    } else {
      var init, c := token[..|token| - 1], token[|token| - 1];
      assert (s + token)[..|s + token| - 1] == s + init;
      assert token == init + [c];
      SplitAppend(s, init);
      assert before[|before| - 1] + init + [c] == before[|before| - 1] + token;
    }
  }

  lemma {:induction false} SplitJoined(tokens: seq<string>)
    requires tokens != [] && forall i :: 0 <= i < |tokens| ==> ',' !in tokens[i]
    ensures SplitComma(JoinComma(tokens)) == tokens
    decreases |tokens|
  {
    var token := tokens[|tokens| - 1];
    if |tokens| == 1 {
      SplitAppend("", token);
      assert "" + token == token && tokens == [token];
    } else {
      var init := tokens[..|tokens| - 1];
      SplitJoined(init);
      var joined := JoinComma(init);
      assert (joined + ",")[..|joined|] == joined;
      SplitAppend(joined + ",", token);
      assert tokens == init + [token] && "" + token == token;
    }
  }

  predicate CommaFree(tokens: seq<string>) {
    forall i :: 0 <= i < |tokens| ==> ',' !in tokens[i]
  }

  /** Joining the tokens gives the text back, and no token holds a comma. */
  lemma {:induction false} JoinedSplit(s: string)
    ensures JoinComma(SplitComma(s)) == s && CommaFree(SplitComma(s))
    decreases |s|
  {
    if s != "" {
      var init, c := s[..|s| - 1], s[|s| - 1];
      var before := SplitComma(init);
      var first, last := before[..|before| - 1], before[|before| - 1];
      JoinedSplit(init);
      assert s == init + [c];
      if c == ',' {
        assert (before + [""])[..|before|] == before;
        assert init + "," + "" == s;
      } else {
        assert (first + [last + [c]])[..|first|] == first;
        assert first == [] ==> before == [last];
        assert first != [] ==> JoinComma(first) + "," + (last + [c]) == JoinComma(first) + "," + last + [c];
      }
    }
  }
}
