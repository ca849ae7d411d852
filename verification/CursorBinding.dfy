/** Which sorts a cursor can be taken for: the effective sorts a request can have, by what was asked for
    and by the policy's own default. */
module CursorBinding {
  import opened Wrappers
  import opened SortTerms
  import opened Keyset
  import Index
  import opened CursorText
  import opened CursorCodec
  import opened QueryParams
  import opened Strings

  /** The sort of a request that asks for one. */
  ghost predicate Asked(sorts: seq<SortTerm>, policy: QueryPolicy) {
    exists raw :: ParseSort(raw, policy) == Some(sorts)
  }

  function DefaultSort(policy: QueryPolicy): seq<SortTerm> {
    AppendTieBreaker(policy.defaultSort, policy)
  }

  /** Every effective sort of a request is one of these. */
  ghost predicate Received(sorts: seq<SortTerm>, policy: QueryPolicy) {
    Asked(sorts, policy) || sorts == DefaultSort(policy)
  }

  function TieTerm(policy: QueryPolicy): SortTerm {
    SortTerm(policy.tieName, policy.tieDescending, None)
  }

  // ---- What can be asked for ----


  lemma {:induction false} SplitIsCommaFree(s: string)
    ensures CommaFree(SplitComma(s))
    decreases |s|
  {
    if s != "" { SplitIsCommaFree(s[..|s| - 1]); }
  }

  /** The tokens of a request, completed: the sort it has if they are accepted. */
  function Reread(tokens: seq<string>, policy: QueryPolicy): Option<seq<SortTerm>> {
    if tokens == [] || !CommaFree(tokens) then None
    else
      var terms := Terms(tokens, policy);
      if terms.None? then None else Some(AppendTieBreaker(terms.value, policy))
  }

  lemma AskedIsReread(sorts: seq<SortTerm>, policy: QueryPolicy)
    ensures Asked(sorts, policy) <==> exists tokens :: Reread(tokens, policy) == Some(sorts)
  {
    if raw :| ParseSort(raw, policy) == Some(sorts) {
      SplitIsCommaFree(raw);
      assert Reread(SplitComma(raw), policy) == Some(sorts);
    }
    if tokens :| Reread(tokens, policy) == Some(sorts) {
      SplitJoined(tokens);
      assert ParseSort(JoinComma(tokens), policy) == Some(sorts);
    }
  }

  /** Reading tokens and signing the terms gives the tokens: parsed terms never collide. */
  lemma {:induction false} TermsSign(tokens: seq<string>, policy: QueryPolicy)
    requires Terms(tokens, policy).Some?
    ensures Signature(Terms(tokens, policy).value) == tokens
    ensures Normalize(Terms(tokens, policy).value) == Terms(tokens, policy).value
    decreases |tokens|
  {
    if tokens != [] {
      var init, token := tokens[..|tokens| - 1], tokens[|tokens| - 1];
      TermsSign(init, policy);
      assert Sign(Token(token)) == token by {
        assert token != "" && token[0] == '-' ==> "-" + token[1..] == token;
      }
      assert tokens == init + [token];
      SignatureAppend(Terms(init, policy).value, Token(token));
    }
  }

  lemma SignatureAppend(terms: seq<SortTerm>, term: SortTerm)
    ensures Signature(terms + [term]) == Signature(terms) + [Sign(term)]
  {}

  /** A sort that was asked for is what its own signature reads as, or all of it but the tie breaker. */
  lemma RereadSigns(tokens: seq<string>, policy: QueryPolicy)
    requires Reread(tokens, policy).Some?
    ensures var sorts := Reread(tokens, policy).value;
            Signature(sorts) == tokens || (|sorts| > 1 && sorts[|sorts| - 1] == TieTerm(policy)
                                           && Signature(sorts) == tokens + [Sign(TieTerm(policy))])
  {
    TermsSign(tokens, policy);
    var terms := Terms(tokens, policy).value;
    assert |terms| == |Signature(terms)|;
    SignatureAppend(terms, TieTerm(policy));
  }

  // ---- When a policy makes two sorts look alike ----

  /** A name a `sort` parameter can spell. */
  predicate Speakable(policy: QueryPolicy, name: string) {
    name in policy.sorts && name != "" && ',' !in name
  }

  /** The ascending tie breaker is signed like a request for `n` descending, which is the tie breaker's
      column too, while some other sort can be asked for. */
  predicate TieMisread(policy: QueryPolicy, n: string, m: string) {
    && !policy.tieDescending && policy.tieName == "-" + n
    && Speakable(policy, n) && policy.sorts[n] == policy.tieColumn
    && Speakable(policy, m) && policy.sorts[m] != policy.tieColumn && m != policy.tieName
  }

  ghost predicate TieIsMisread(policy: QueryPolicy) {
    exists n, m :: TieMisread(policy, n, m)
  }

  /** An ascending name that starts with a dash: a request spells it as another name, descending. */
  predicate Dashed(term: SortTerm) {
    !term.descending && term.name != "" && term.name[0] == '-'
  }

  /** What a request that uses the term's signature asks for. */
  function Heard(term: SortTerm): SortTerm {
    if Dashed(term) then SortTerm(term.name[1..], true, None) else term
  }

  function HeardAll(terms: seq<SortTerm>): seq<SortTerm> {
    seq(|terms|, i requires 0 <= i < |terms| => Heard(terms[i]))
  }

  predicate AnyDashed(terms: seq<SortTerm>) {
    exists i :: 0 <= i < |terms| && Dashed(terms[i])
  }

  predicate DistinctNames(terms: seq<SortTerm>) {
    forall i, j :: 0 <= i < j < |terms| ==> terms[i].name != terms[j].name
  }

  /** Terms a `sort` parameter can ask for. */
  predicate Askable(terms: seq<SortTerm>, policy: QueryPolicy) {
    terms != [] && (forall i :: 0 <= i < |terms| ==> Speakable(policy, terms[i].name)) && DistinctNames(terms)
  }

  /** The default sort is signed like a request for something else: for all of its terms, one of them dashed,
      or for all but the last, which the tie breaker stands in for. */
  predicate DefaultIsMisread(policy: QueryPolicy) {
    var sorts, tie := DefaultSort(policy), TieTerm(policy);
    || (AnyDashed(sorts) && Askable(HeardAll(sorts), policy) && HasTie(HeardAll(sorts), policy))
    || (sorts != []
        && var init, last := sorts[..|sorts| - 1], sorts[|sorts| - 1];
           && Askable(HeardAll(init), policy) && !HasTie(HeardAll(init), policy)
           && Heard(last) == Heard(tie) && (AnyDashed(init) || last != tie))
  }

  /** These tokens ask for a sort that is signed like the default one and is another. */
  predicate Collides(policy: QueryPolicy, tokens: seq<string>) {
    var other := Reread(tokens, policy);
    other.Some? && Signature(other.value) == Signature(DefaultSort(policy)) && other.value != DefaultSort(policy)
  }

  // ---- The default sort, as a request hears it ----

  predicate Unqualified(terms: seq<SortTerm>) {
    forall i :: 0 <= i < |terms| ==> terms[i].column.None?
  }

  lemma HeardIs(term: SortTerm)
    requires term.column.None?
    ensures Token(Sign(term)) == Heard(term) && Sign(Heard(term)) == Sign(term)
    ensures ',' in Sign(term) <==> ',' in Heard(term).name
    ensures Heard(term) == term <==> !Dashed(term)
  {
    assert term.descending ==> ("-" + term.name)[1..] == term.name;
    if Dashed(term) {
      assert term.name == "-" + term.name[1..];
      assert |term.name[1..]| < |term.name|;
    }
  }

  lemma HeardAgree(a: SortTerm, b: SortTerm)
    requires a.column.None? && b.column.None?
    ensures Sign(a) == Sign(b) <==> Heard(a) == Heard(b)
  {
    HeardIs(a);
    HeardIs(b);
  }

  lemma HeardSigns(terms: seq<SortTerm>)
    requires Unqualified(terms)
    ensures Signature(HeardAll(terms)) == Signature(terms)
    ensures HeardAll(terms) == terms <==> !AnyDashed(terms)
    ensures Normalize(HeardAll(terms)) == HeardAll(terms)
    ensures CommaFree(Signature(terms)) <==> forall i :: 0 <= i < |terms| ==> ',' !in HeardAll(terms)[i].name
  {
    forall i | 0 <= i < |terms|
      ensures Sign(HeardAll(terms)[i]) == Sign(terms[i]) && (HeardAll(terms)[i] == terms[i] <==> !Dashed(terms[i]))
      ensures ',' in Signature(terms)[i] <==> ',' in HeardAll(terms)[i].name
      ensures HeardAll(terms)[i].column.None?
    {
      HeardIs(terms[i]);
    }
    hide Sign, Heard, Dashed;
    assert forall i :: 0 <= i < |terms| ==> Signature(HeardAll(terms))[i] == Signature(terms)[i];
  }

  /** Allowed names, each once. */
  predicate Listable(terms: seq<SortTerm>, policy: QueryPolicy) {
    (forall i :: 0 <= i < |terms| ==> terms[i].name != "" && terms[i].name in policy.sorts) && DistinctNames(terms)
  }

  lemma {:induction false} TermsHeard(terms: seq<SortTerm>, policy: QueryPolicy)
    requires Unqualified(terms)
    ensures Terms(Signature(terms), policy)
            == if Listable(HeardAll(terms), policy) then Some(HeardAll(terms)) else None
    decreases |terms|
  {
    if terms != [] {
      var init, last := terms[..|terms| - 1], terms[|terms| - 1];
      TermsHeard(init, policy);
      HeardIs(last);
      assert Signature(terms)[..|terms| - 1] == Signature(init);
      assert HeardAll(terms) == HeardAll(init) + [Heard(last)];
      ListableNext(HeardAll(init), Heard(last), policy);
    }
  }

  lemma ListableNext(terms: seq<SortTerm>, term: SortTerm, policy: QueryPolicy)
    ensures Listable(terms + [term], policy)
            <==> Listable(terms, policy) && term.name != "" && term.name in policy.sorts && !NamedIn(terms, term.name)
  {
    var all := terms + [term];
    if Listable(all, policy) {
      assert all[|terms|] == term;
      forall i | 0 <= i < |terms| ensures terms[i] == all[i] {}
    }
  }

  /** Asking with a sort's own signature. */
  lemma RereadHeard(terms: seq<SortTerm>, policy: QueryPolicy)
    requires Unqualified(terms)
    ensures Reread(Signature(terms), policy)
            == if Askable(HeardAll(terms), policy) then Some(AppendTieBreaker(HeardAll(terms), policy)) else None
  {
    TermsHeard(terms, policy);
    HeardSigns(terms);
    assert |Signature(terms)| == |terms| == |HeardAll(terms)|;
    hide Terms, AppendTieBreaker, Signature, HeardAll, CommaFree;
    assert Askable(HeardAll(terms), policy) <==>
      terms != [] && Listable(HeardAll(terms), policy) && forall i ::
          0 <= i < |terms| ==> ',' !in HeardAll(terms)[i].name;
  }

  lemma SignatureLength(terms: seq<SortTerm>)
    ensures |Signature(terms)| == |terms|
  {}

  lemma SnocAgree<T>(a: seq<T>, x: T, b: seq<T>, y: T)
    ensures a + [x] == b + [y] <==> a == b && x == y
  {
    if a + [x] == b + [y] {
      assert a == (a + [x])[..|a|] && b == (b + [y])[..|b|];
      assert x == (a + [x])[|a|] && y == (b + [y])[|b|];
    }
  }

  lemma AppendIs(terms: seq<SortTerm>, policy: QueryPolicy)
    requires Normalize(terms) == terms
    ensures AppendTieBreaker(terms, policy) == if HasTie(terms, policy) then terms else terms + [TieTerm(policy)]
  {}

  lemma DefaultIsUnqualified(policy: QueryPolicy)
    ensures Unqualified(DefaultSort(policy)) && DefaultSort(policy) != []
  {}

  lemma WholeCollides(policy: QueryPolicy)
    ensures var sorts := DefaultSort(policy);
            Collides(policy, Signature(sorts))
            <==> AnyDashed(sorts) && Askable(HeardAll(sorts), policy) && HasTie(HeardAll(sorts), policy)
  {
    var sorts := DefaultSort(policy);
    var heard := HeardAll(sorts);
    DefaultIsUnqualified(policy);
    RereadHeard(sorts, policy);
    HeardSigns(sorts);
    AppendIs(heard, policy);
    SignatureLength(sorts);
    SignatureLength(heard + [TieTerm(policy)]);
    hide Reread, Askable, AnyDashed, HasTie, DefaultSort, Signature, AppendTieBreaker, Unqualified, Normalize;
  }

  lemma ShortCollides(policy: QueryPolicy, init: seq<SortTerm>, last: SortTerm)
    requires DefaultSort(policy) == init + [last]
    ensures Collides(policy, Signature(init))
            <==> Askable(HeardAll(init), policy) && !HasTie(HeardAll(init), policy)
                 && Heard(last) == Heard(TieTerm(policy)) && (AnyDashed(init) || last != TieTerm(policy))
  {
    var tie, heard := TieTerm(policy), HeardAll(init);
    DefaultIsUnqualified(policy);
    InitIsUnqualified(init, last);
    RereadHeard(init, policy);
    HeardSigns(init);
    HeardAgree(last, tie);
    AppendIs(heard, policy);
    SignatureAppend(init, last);
    SignatureAppend(heard, tie);
    SignatureLength(heard);
    SignatureLength(init + [last]);
    SnocAgree(Signature(heard), Sign(tie), Signature(init), Sign(last));
    SnocAgree(heard, tie, init, last);
    hide Reread, Askable, AnyDashed, HasTie, DefaultSort, Heard, Sign, Signature, AppendTieBreaker, Unqualified;
    hide Normalize;
  }

  lemma InitIsUnqualified(init: seq<SortTerm>, last: SortTerm)
    requires Unqualified(init + [last])
    ensures Unqualified(init) && last.column.None?
  {
    assert (init + [last])[|init|] == last;
    assert forall i :: 0 <= i < |init| ==> init[i] == (init + [last])[i];
  }

  /** The condition on the names is the collision. */
  lemma MisreadIsCollision(policy: QueryPolicy)
    ensures var tokens := Signature(DefaultSort(policy));
            DefaultIsMisread(policy)
            <==> Collides(policy, tokens) || (tokens != [] && Collides(policy, tokens[..|tokens| - 1]))
  {
    var sorts := DefaultSort(policy);
    DefaultIsUnqualified(policy);
    WholeCollides(policy);
    var init, last := sorts[..|sorts| - 1], sorts[|sorts| - 1];
    assert sorts == init + [last];
    ShortCollides(policy, init, last);
    SignatureAppend(init, last);
    hide Collides, Askable, AnyDashed, HasTie, DefaultSort, Heard, HeardAll, Signature;
    assert Signature(sorts)[..|Signature(sorts)| - 1] == Signature(init);
  }

  // ---- Two sorts that were asked for ----

  lemma TermsLast(tokens: seq<string>, policy: QueryPolicy)
    requires tokens != [] && Terms(tokens, policy).Some?
    ensures var init, term := tokens[..|tokens| - 1], Token(tokens[|tokens| - 1]);
            && Terms(init, policy).Some? && Terms(tokens, policy).value == Terms(init, policy).value + [term]
            && term.name != "" && term.name in policy.sorts
  {}

  lemma NamesComma(token: string)
    ensures ',' in Token(token).name ==> ',' in token
  {}

  /** If one tokens list is the other with the tie breaker's signature, both sorts are equal unless the
      tie breaker is misread. */
  lemma AskedWithTie(short: seq<string>, policy: QueryPolicy)
    requires short != [] && Reread(short, policy).Some? && !TieIsMisread(policy)
    requires var long := short + [Sign(TieTerm(policy))];
             Reread(long, policy).Some? && Signature(Reread(long, policy).value) == long
             && Signature(Reread(short, policy).value) == long
    ensures Reread(short + [Sign(TieTerm(policy))], policy) == Reread(short, policy)
  {
    var tie := TieTerm(policy);
    var long := short + [Sign(tie)];
    TermsLast(long, policy);
    assert long[..|long| - 1] == short;
    var before, term := Terms(short, policy).value, Token(Sign(tie));
    TermsSign(short, policy);
    TermsSign(long, policy);
    assert !HasTie(before, policy) && HasTie(before + [term], policy) by {
      Appended(before, policy, short);
      Whole(before + [term], policy, long);
    }
    if term != tie {
      TieReadAs(policy, term);
      TermsLast(short, policy);
      var m := Token(short[|short| - 1]);
      assert before[|before| - 1] == m;
      NamesComma(short[|short| - 1]);
      NamesComma(Sign(tie));
      assert IsTie(term, policy) by { TieIsLast(before, term, policy); }
      assert !IsTie(m, policy);
      assert TieMisread(policy, term.name, m.name);
    }
  }

  /** The tie breaker was appended exactly when the signature grew. */
  lemma Appended(terms: seq<SortTerm>, policy: QueryPolicy, tokens: seq<string>)
    requires Signature(terms) == tokens && |Signature(AppendTieBreaker(terms, policy))| == |tokens| + 1
    ensures !HasTie(terms, policy)
  {
    assert |terms| == |Signature(terms)|;
  }

  lemma Whole(terms: seq<SortTerm>, policy: QueryPolicy, tokens: seq<string>)
    requires Signature(terms) == tokens && Signature(AppendTieBreaker(terms, policy)) == tokens
    ensures HasTie(terms, policy)
  {
    assert |terms| == |Signature(terms)|;
    assert |AppendTieBreaker(terms, policy)| == |Signature(AppendTieBreaker(terms, policy))|;
  }

  lemma TieIsLast(before: seq<SortTerm>, term: SortTerm, policy: QueryPolicy)
    requires !HasTie(before, policy) && HasTie(before + [term], policy)
    ensures IsTie(term, policy)
  {
    var i :| 0 <= i < |before + [term]| && IsTie((before + [term])[i], policy);
    assert i < |before| ==> IsTie(before[i], policy);
  }

  lemma TieReadAs(policy: QueryPolicy, term: SortTerm)
    requires term == Token(Sign(TieTerm(policy))) && term != TieTerm(policy)
    ensures !policy.tieDescending && policy.tieName == "-" + term.name && term.descending && term.column.None?
    ensures term.name != policy.tieName
  {
    HeardIs(TieTerm(policy));
    assert policy.tieName == "-" + policy.tieName[1..];
    assert |term.name| < |policy.tieName|;
  }

  lemma AskedAgree(s: seq<string>, t: seq<string>, policy: QueryPolicy)
    requires Reread(s, policy).Some? && Reread(t, policy).Some? && !TieIsMisread(policy)
    requires Signature(Reread(s, policy).value) == Signature(Reread(t, policy).value)
    ensures Reread(s, policy) == Reread(t, policy)
  {
    hide TieIsMisread;
    RereadSigns(s, policy);
    RereadSigns(t, policy);
    var signed := Signature(Reread(s, policy).value);
    var tie := [Sign(TieTerm(policy))];
    if signed == s && signed == t + tie {
      AskedWithTie(t, policy);
    } else if signed == s + tie && signed == t {
      AskedWithTie(s, policy);
    } else if signed == s + tie && signed == t + tie {
      assert s == signed[..|signed| - 1] == t;
    }
  }

  // ---- The exact condition ----

  /** No two effective sorts of a policy have the same signature. */
  ghost predicate Identifies(policy: QueryPolicy) {
    forall a, b :: Received(a, policy) && Received(b, policy) && Signature(a) == Signature(b) ==> a == b
  }

  lemma AskedIsNotDefault(tokens: seq<string>, policy: QueryPolicy)
    requires Reread(tokens, policy).Some? && !DefaultIsMisread(policy)
    requires Signature(Reread(tokens, policy).value) == Signature(DefaultSort(policy))
    ensures Reread(tokens, policy).value == DefaultSort(policy)
  {
    MisreadIsCollision(policy);
    RereadSigns(tokens, policy);
    hide DefaultIsMisread;
    var signed := Signature(DefaultSort(policy));
    if signed == tokens + [Sign(TieTerm(policy))] {
      assert tokens == signed[..|signed| - 1];
    }
  }

  lemma MisreadCollides(policy: QueryPolicy, tokens: seq<string>)
    requires Collides(policy, tokens)
    ensures !Identifies(policy)
  {
    var other := Reread(tokens, policy).value;
    AskedIsReread(other, policy);
    assert Received(other, policy) && Received(DefaultSort(policy), policy);
  }

  lemma TieCollides(policy: QueryPolicy, n: string, m: string)
    requires TieMisread(policy, n, m)
    ensures !Identifies(policy)
  {
    var a, b := SortTerm(m, true, None), SortTerm(n, true, None);
    var short, long := ["-" + m], ["-" + m, "-" + n];
    assert ("-" + m)[1..] == m && ("-" + n)[1..] == n;
    assert Token("-" + m) == a && Token("-" + n) == b;
    assert [] + ["-" + m] == short && short + ["-" + n] == long && [] + [a] == [a] && [a] + [b] == [a, b];
    TermsNext([], "-" + m, policy, []);
    TermsNext(short, "-" + n, policy, [a]);
    PairCollides(policy, a, b, short, long);
  }

  lemma TermsNext(tokens: seq<string>, token: string, policy: QueryPolicy, before: seq<SortTerm>)
    requires Terms(tokens, policy) == Some(before)
    requires Token(token).name != "" && Token(token).name in policy.sorts && !NamedIn(before, Token(token).name)
    ensures Terms(tokens + [token], policy) == Some(before + [Token(token)])
  {
    assert (tokens + [token])[..|tokens|] == tokens;
  }

  lemma PairCollides(policy: QueryPolicy, a: SortTerm, b: SortTerm, short: seq<string>, long: seq<string>)
    requires TieMisread(policy, b.name, a.name) && b == SortTerm(b.name, true, None)
             && a == SortTerm(a.name, true, None)
    requires Terms(short, policy) == Some([a]) && Terms(long, policy) == Some([a, b])
    requires short != [] && long != [] && CommaFree(short) && CommaFree(long)
    ensures !Identifies(policy)
  {
    hide Terms;
    assert |b.name| < |policy.tieName|;
    assert !HasTie([a], policy) && HasTie([a, b], policy) by { assert IsTie([a, b][1], policy); }
    assert Normalize([a]) == [a] && Normalize([a, b]) == [a, b];
    var one, two := [a, TieTerm(policy)], [a, b];
    assert Reread(short, policy) == Some(one) by { assert [a] + [TieTerm(policy)] == one; }
    assert Reread(long, policy) == Some(two);
    AskedIsReread(one, policy);
    AskedIsReread(two, policy);
    assert Signature(one) == Signature(two);
    assert one[1] != two[1];
    assert Received(one, policy) && Received(two, policy);
  }

  /** The signature identifies the sort among all a request can have, if and only if neither the tie
      breaker nor the default sort is misread. */
  lemma SignatureIdentifies(policy: QueryPolicy)
    ensures Identifies(policy) <==> !TieIsMisread(policy) && !DefaultIsMisread(policy)
  {
    if n, m :| TieMisread(policy, n, m) {
      TieCollides(policy, n, m);
    }
    MisreadIsCollision(policy);
    hide DefaultIsMisread;
    var tokens := Signature(DefaultSort(policy));
    if Collides(policy, tokens) {
      MisreadCollides(policy, tokens);
    } else if DefaultIsMisread(policy) {
      MisreadCollides(policy, tokens[..|tokens| - 1]);
    } else if !TieIsMisread(policy) {
      forall a, b | Received(a, policy) && Received(b, policy) && Signature(a) == Signature(b) ensures a == b {
        ReceivedAgree(a, b, policy);
      }
    }
  }

  lemma ReceivedAgree(a: seq<SortTerm>, b: seq<SortTerm>, policy: QueryPolicy)
    requires !TieIsMisread(policy) && !DefaultIsMisread(policy)
    requires Received(a, policy) && Received(b, policy) && Signature(a) == Signature(b)
    ensures a == b
  {
    hide TieIsMisread, DefaultIsMisread, Signature, DefaultSort, Reread;
    AskedIsReread(a, policy);
    AskedIsReread(b, policy);
    if Asked(a, policy) {
      var s :| Reread(s, policy) == Some(a);
      if Asked(b, policy) {
        var t :| Reread(t, policy) == Some(b);
        AskedAgree(s, t, policy);
      } else {
        AskedIsNotDefault(s, policy);
      }
    } else if Asked(b, policy) {
      var t :| Reread(t, policy) == Some(b);
      AskedIsNotDefault(t, policy);
    }
  }

  /** A cursor of one effective sort is refused under every other one, whatever the row. */
  lemma RefusedElsewhere(policy: QueryPolicy, codec: Codec, a: seq<SortTerm>, b: seq<SortTerm>, row: Row<Value>)
    requires !TieIsMisread(policy) && !DefaultIsMisread(policy) && Reads(codec)
    requires Received(a, policy) && Received(b, policy) && a != b && Minted(a, policy, row).Some?
    ensures Decoded(Minted(a, policy, row).value, b, policy, codec).None?
  {
    hide TieIsMisread, DefaultIsMisread, Reads, Minted, Decoded, Received;
    if Signature(a) == Signature(b) { ReceivedAgree(a, b, policy); }
    CursorIsBound(a, policy, row, b, policy, codec);
  }

  /** Names the parser can write are never misread: a policy whose default sort and tie breaker have no
      ascending name with a leading dash has no collisions. */
  lemma PlainPolicyIdentifies(policy: QueryPolicy)
    requires !Dashed(TieTerm(policy)) && !AnyDashed(policy.defaultSort)
    ensures Identifies(policy)
  {
    var sorts := DefaultSort(policy);
    assert !Dashed(TieTerm(policy));
    forall i | 0 <= i < |sorts| ensures !Dashed(sorts[i]) {}
    assert !AnyDashed(sorts) && !AnyDashed(sorts[..|sorts| - 1]);
    SignatureIdentifies(policy);
  }

  // ---- A policy that is misread ----

  const ID := SortTerm("id", false, None)

  /** Sorts `x` and `-x`, by default `-x` ascending. */
  const DASHED_POLICY := QueryPolicy(map["x" := "a", "-x" := "b"], [SortTerm("-x", false, None)], "id", false, "id",
                                     map["a" := SORTABLE, "b" := SORTABLE, "id" := SORTABLE])
  const BY_DEFAULT := [SortTerm("-x", false, None), ID]
  const BY_REQUEST := [SortTerm("x", true, None), ID]
  const DEFAULT_ORDER := [OrderTerm("b", false), OrderTerm("id", false)]
  const REQUEST_ORDER := [OrderTerm("a", true), OrderTerm("id", false)]

  /** The default sort and `sort=-x` are two sorts over different columns with one signature. */
  lemma MisreadSorts()
    ensures DefaultSort(DASHED_POLICY) == BY_DEFAULT && ParseSort("-x", DASHED_POLICY) == Some(BY_REQUEST)
    ensures BY_DEFAULT != BY_REQUEST && Signature(BY_DEFAULT) == Signature(BY_REQUEST)
    ensures KeysetColumns(BY_DEFAULT, DASHED_POLICY) == Some(DEFAULT_ORDER)
    ensures KeysetColumns(BY_REQUEST, DASHED_POLICY) == Some(REQUEST_ORDER)
    ensures DEFAULT_ORDER[0].column != REQUEST_ORDER[0].column
  {
    MisreadAsked(DASHED_POLICY, BY_REQUEST[0], ID);
    MisreadDefault(DASHED_POLICY, BY_DEFAULT[0], ID);
    TwoColumns(DASHED_POLICY, BY_DEFAULT[0], ID, DEFAULT_ORDER);
    TwoColumns(DASHED_POLICY, BY_REQUEST[0], ID, REQUEST_ORDER);
    hide ParseSort, DefaultSort, KeysetColumns;
    assert Sign(BY_DEFAULT[0]) == "-x" == Sign(BY_REQUEST[0]);
    assert BY_DEFAULT[0] != BY_REQUEST[0];
  }

  /** The cursor of a default page is accepted under `sort=-x`, where its values stand for a position in
      the wrong column. */
  lemma MisreadCursor(codec: Codec, row: Row<Value>)
    requires Reads(codec) && "a" in codec.kinds && "b" in codec.kinds && "id" in codec.kinds
    requires codec.kinds["a"] == codec.kinds["b"] == codec.kinds["id"] == StrKind
    requires row == map["a" := Str("1"), "b" := Str("2"), "id" := Str("3")]
    ensures DefaultSort(DASHED_POLICY) == BY_DEFAULT && ParseSort("-x", DASHED_POLICY) == Some(BY_REQUEST)
    ensures Minted(BY_DEFAULT, DASHED_POLICY, row).Some?
    ensures Decoded(Minted(BY_DEFAULT, DASHED_POLICY, row).value, BY_REQUEST, DASHED_POLICY, codec)
            == Some([Str("2"), Str("3")])
  {
    MisreadSorts();
    assert Sign(BY_DEFAULT[0]) == "-x" && Sign(ID) == "id";
    assert Index.KeyValues(DEFAULT_ORDER, row) == [Str("2"), Str("3")];
    hide ParseSort, DefaultSort, KeysetColumns, Minted, Decoded, Signature, Reads;
    MisreadDecodes(DASHED_POLICY, codec, BY_DEFAULT, BY_REQUEST, DEFAULT_ORDER, REQUEST_ORDER, row);
  }

  lemma MisreadDefault(policy: QueryPolicy, dash: SortTerm, id: SortTerm)
    requires policy.defaultSort == [dash] && dash == SortTerm("-x", false, None) && id == SortTerm("id", false, None)
    requires "-x" in policy.sorts && policy.sorts["-x"] == "b" && policy.tieName == "id" && policy.tieColumn == "id"
    requires !policy.tieDescending
    ensures DefaultSort(policy) == [dash, id]
  {
    assert !IsTie([dash][0], policy) && Normalize([dash]) == [dash] && [dash] + [id] == [dash, id];
  }

  lemma TwoColumns(policy: QueryPolicy, first: SortTerm, second: SortTerm, order: seq<OrderTerm>)
    requires |order| == 2 && Addressable(order, policy)
    requires ResolveSortColumn(first, policy) == Some(order[0].column) && first.descending == order[0].descending
    requires ResolveSortColumn(second, policy) == Some(order[1].column) && second.descending == order[1].descending
    ensures KeysetColumns([first, second], policy) == Some(order)
  {
    assert ResolveAll([first, second], policy).value == order;
  }

  lemma MisreadAsked(policy: QueryPolicy, x: SortTerm, id: SortTerm)
    requires "x" in policy.sorts && policy.sorts["x"] == "a" && policy.tieName == "id" && policy.tieColumn == "id"
    requires x == SortTerm("x", true, None) && id == SortTerm("id", false, None) && !policy.tieDescending
    ensures ParseSort("-x", policy) == Some([x, id])
  {
    SplitJoined(["-x"]);
    assert ("-x")[1..] == "x" && Token("-x") == x;
    TermsNext([], "-x", policy, []);
    assert [] + ["-x"] == ["-x"] && [] + [x] == [x];
    assert !IsTie([x][0], policy) && Normalize([x]) == [x] && [x] + [id] == [x, id];
  }

  lemma MisreadDecodes(policy: QueryPolicy, codec: Codec, a: seq<SortTerm>, b: seq<SortTerm>, order: seq<OrderTerm>,
                       other: seq<OrderTerm>, row: Row<Value>)
    requires Reads(codec) && KeysetColumns(a, policy) == Some(order) && KeysetColumns(b, policy) == Some(other)
    requires Signature(a) == Signature(b) && |a| == 2 && |Sign(a[0])| == 2 && |Sign(a[1])| == 2
    requires |order| == |other| == 2 && order[1].column == other[1].column && NoNulls(order, row)
    requires other[0].column in codec.kinds && other[1].column in codec.kinds
    requires codec.kinds[other[0].column] == codec.kinds[other[1].column] == StrKind
    requires forall i :: 0 <= i < 2 ==> row[order[i].column].Str? && |row[order[i].column].s| == 1
    ensures Minted(a, policy, row).Some?
    ensures Decoded(Minted(a, policy, row).value, b, policy, codec) == Some(Index.KeyValues(order, row))
  {
    var payload, key := PayloadOf(a, order, row), Index.KeyValues(order, row);
    ShortPayload(payload);
    ArmoredOpens(codec, payload);
    DecodesTo(other, codec, payload.values, key);
  }

  lemma ShortPayload(payload: Payload)
    requires |payload.signature| == |payload.values| == 2
    requires |payload.signature[0]| == |payload.signature[1]| == 2 && |payload.values[0]| == |payload.values[1]| == 1
    ensures |Dumps(payload)| <= MAX_PAYLOAD_LENGTH
  {
    DumpsLength(payload);
    EscapeIsAscii(payload.signature[0]);
    EscapeIsAscii(payload.signature[1]);
    EscapeIsAscii(payload.values[0]);
    EscapeIsAscii(payload.values[1]);
    hide Dumps, Escape;
    assert Written(payload.signature[1..][1..]) == 0 && Written(payload.values[1..][1..]) == 0;
  }
}
