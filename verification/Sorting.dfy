/** Sequences of rows under a strict order: sorting, filtering and first-occurrence
    de-duplication, as a database and `dict.fromkeys` perform them. */
module Sorting {

  /** `before` orders any two different members of `bag`; it need not order other rows. */
  ghost predicate TotalOn<R(!new)>(before: (R, R) -> bool, bag: seq<R>) {
    && (forall x :: !before(x, x))
    && (forall x, y, z :: before(x, y) && before(y, z) ==> before(x, z))
    && (forall x, y {:trigger before(x, y)} :: x in bag && y in bag ==> x == y || before(x, y) || before(y, x))
  }

  ghost predicate Sorted<R>(before: (R, R) -> bool, s: seq<R>) {
    forall i, j :: 0 <= i < j < |s| ==> !before(s[j], s[i])
  }

  function Filter<R>(keep: R -> bool, s: seq<R>): (r: seq<R>)
    ensures |r| <= |s|
  {
    if s == [] then []
    else
      var kept := Filter(keep, s[..|s| - 1]);
      if keep(s[|s| - 1]) then kept + [s[|s| - 1]] else kept
  }

  function Insert<R>(before: (R, R) -> bool, x: R, s: seq<R>): (r: seq<R>)
    ensures |r| == |s| + 1
    ensures multiset(r) == multiset(s) + multiset{x}
  {
    if s == [] || !before(x, s[|s| - 1]) then s + [x]
    else
      assert s == s[..|s| - 1] + [s[|s| - 1]];
      Insert(before, x, s[..|s| - 1]) + [s[|s| - 1]]
  }

  /** ORDER BY: an insertion sort, stable among rows the order does not separate. */
  function Ordered<R>(before: (R, R) -> bool, bag: seq<R>): (r: seq<R>)
    ensures |r| == |bag|
    ensures multiset(r) == multiset(bag)
  {
    if bag == [] then []
    else
      assert bag == bag[..|bag| - 1] + [bag[|bag| - 1]];
      Insert(before, bag[|bag| - 1], Ordered(before, bag[..|bag| - 1]))
  }

  /** `list(dict.fromkeys(s))`: each element once, at its first position. */
  function Distinct<R(==)>(s: seq<R>): (r: seq<R>)
    ensures |r| <= |s|
    ensures s != [] ==> r != []
  {
    if s == [] then []
    else
      var seen := Distinct(s[..|s| - 1]);
      if s[|s| - 1] in s[..|s| - 1] then seen else seen + [s[|s| - 1]]
  }

  function Reverse<R>(s: seq<R>): (r: seq<R>)
    ensures |r| == |s|
    ensures forall i :: 0 <= i < |s| ==> r[i] == s[|s| - 1 - i]
  {
    if s == [] then [] else [s[|s| - 1]] + Reverse(s[..|s| - 1])
  }

  function Take<R>(s: seq<R>, n: nat): (r: seq<R>)
    ensures |r| == if n <= |s| then n else |s|
    ensures r == s[..|r|]
  {
    if n <= |s| then s[..n] else s
  }

  function Drop<R>(s: seq<R>, n: nat): (r: seq<R>)
    ensures |r| == if n <= |s| then |s| - n else 0
  {
    if n <= |s| then s[n..] else []
  }

  lemma SameMembers<R(!new)>(s: seq<R>, t: seq<R>)
    requires multiset(s) == multiset(t)
    ensures forall x :: x in s <==> x in t
  {
    forall x ensures x in s <==> x in t {
      assert x in s <==> x in multiset(s);
      assert x in t <==> x in multiset(t);
    }
  }

  lemma SortedAppend<R>(before: (R, R) -> bool, s: seq<R>, x: R)
    requires Sorted(before, s) && forall y :: y in s ==> !before(x, y)
    ensures Sorted(before, s + [x])
  {}

  lemma NotBeforeAny<R(!new)>(before: (R, R) -> bool, s: seq<R>, x: R)
    requires TotalOn(before, s + [x]) && Sorted(before, s)
    requires s != [] ==> !before(x, s[|s| - 1])
    ensures forall y :: y in s ==> !before(x, y)
  {
    forall y | y in s ensures !before(x, y) {
      var i :| 0 <= i < |s| && s[i] == y;
      var last := s[|s| - 1];
      assert last in s + [x] && y in s + [x];
      assert before(x, y) ==> y == last || before(y, last) || before(last, y);
    }
  }

  lemma {:induction false} FilterMembers<R(!new)>(keep: R -> bool, s: seq<R>)
    ensures forall x :: x in Filter(keep, s) <==> x in s && keep(x)
  {
    if s != [] {
      assert s == s[..|s| - 1] + [s[|s| - 1]];
      FilterMembers(keep, s[..|s| - 1]);
    }
  }

  lemma {:induction false} DistinctMembers<R(!new)>(s: seq<R>)
    ensures forall x :: x in Distinct(s) <==> x in s
  {
    if s != [] {
      assert s == s[..|s| - 1] + [s[|s| - 1]];
      DistinctMembers(s[..|s| - 1]);
    }
  }

  lemma {:induction false} InsertSorted<R(!new)>(before: (R, R) -> bool, x: R, s: seq<R>)
    requires TotalOn(before, s + [x]) && Sorted(before, s)
    ensures Sorted(before, Insert(before, x, s))
  {
    if s == [] || !before(x, s[|s| - 1]) {
      NotBeforeAny(before, s, x);
    } else {
      var init, last := s[..|s| - 1], s[|s| - 1];
      assert TotalOn(before, init + [x]) by {
        forall y | y in init + [x] ensures y in s + [x] {}
      }
      InsertSorted(before, x, init);
      SameMembers(Insert(before, x, init), init + [x]);
      forall y | y in Insert(before, x, init) ensures !before(last, y) {
        assert y in init + [x];
      }
      SortedAppend(before, Insert(before, x, init), last);
    }
  }

  lemma {:induction false} OrderedSorted<R(!new)>(before: (R, R) -> bool, bag: seq<R>)
    requires TotalOn(before, bag)
    ensures Sorted(before, Ordered(before, bag))
  {
    if bag != [] {
      var init, x := bag[..|bag| - 1], bag[|bag| - 1];
      OrderedSorted(before, init);
      SameMembers(Ordered(before, init), init);
      InsertSorted(before, x, Ordered(before, init));
    }
  }

  lemma LastOfSorted<R>(before: (R, R) -> bool, s: seq<R>, y: R)
    requires Sorted(before, s) && y in s && s != []
    ensures y == s[|s| - 1] || !before(s[|s| - 1], y)
  {}

  lemma DropLastCount<R>(s: seq<R>)
    requires s != []
    ensures multiset(s[..|s| - 1]) == multiset(s) - multiset{s[|s| - 1]}
  {
    assert s == s[..|s| - 1] + [s[|s| - 1]];
  }

  lemma DropLast<R>(s: seq<R>, t: seq<R>)
    requires multiset(s) == multiset(t) && s != [] && t != [] && s[|s| - 1] == t[|t| - 1]
    ensures multiset(s[..|s| - 1]) == multiset(t[..|t| - 1])
  {
    DropLastCount(s);
    DropLastCount(t);
  }

  /** Whatever sorted arrangement of the bag a database returns, it is this one. */
  lemma {:induction false} SortedUnique<R(!new)>(before: (R, R) -> bool, s: seq<R>, t: seq<R>)
    requires TotalOn(before, s) && multiset(s) == multiset(t)
    requires Sorted(before, s) && Sorted(before, t)
    ensures s == t
  {
    assert |s| == |multiset(s)| == |multiset(t)| == |t|;
    if s != [] {
      SortedSameLast(before, s, t);
      DropLast(s, t);
      var s', t' := s[..|s| - 1], t[..|t| - 1];
      assert TotalOn(before, s') by {
        forall z | z in s' ensures z in s {}
      }
      SortedUnique(before, s', t');
      assert s == s' + [s[|s| - 1]] && t == t' + [t[|t| - 1]];
    }
  }

  lemma SortedSameLast<R(!new)>(before: (R, R) -> bool, s: seq<R>, t: seq<R>)
    requires TotalOn(before, s) && multiset(s) == multiset(t) && s != [] && t != []
    requires Sorted(before, s) && Sorted(before, t)
    ensures s[|s| - 1] == t[|t| - 1]
  {
    SameMembers(s, t);
    LastOfSorted(before, s, t[|t| - 1]);
    LastOfSorted(before, t, s[|s| - 1]);
  }

  lemma {:induction false} FilterMultiset<R(!new)>(keep: R -> bool, s: seq<R>, x: R)
    ensures multiset(Filter(keep, s))[x] == if keep(x) then multiset(s)[x] else 0
  {
    if s != [] {
      assert s == s[..|s| - 1] + [s[|s| - 1]];
      FilterMultiset(keep, s[..|s| - 1], x);
    }
  }

  lemma {:induction false} FilterSorted<R(!new)>(before: (R, R) -> bool, keep: R -> bool, s: seq<R>)
    requires Sorted(before, s)
    ensures Sorted(before, Filter(keep, s))
  {
    if s != [] {
      var init, x := s[..|s| - 1], s[|s| - 1];
      FilterSorted(before, keep, init);
      FilterMembers(keep, init);
      forall y | y in Filter(keep, init) ensures !before(x, y) {
        assert y in init;
      }
    }
  }

  /** WHERE and ORDER BY may be evaluated in either order. */
  lemma FilterOrdered<R(!new)>(before: (R, R) -> bool, keep: R -> bool, bag: seq<R>)
    requires TotalOn(before, bag)
    ensures Ordered(before, Filter(keep, bag)) == Filter(keep, Ordered(before, bag))
  {
    var all := Ordered(before, bag);
    OrderedSorted(before, bag);
    FilterSorted(before, keep, all);
    FilterMembers(keep, bag);
    OrderedSorted(before, Filter(keep, bag));
    forall x ensures multiset(Filter(keep, all))[x] == multiset(Filter(keep, bag))[x] {
      FilterMultiset(keep, all, x);
      FilterMultiset(keep, bag, x);
    }
    assert multiset(Filter(keep, all)) == multiset(Filter(keep, bag));
    SameMembers(Ordered(before, Filter(keep, bag)), Filter(keep, bag));
    FilterMembers(keep, bag);
    SortedUnique(before, Ordered(before, Filter(keep, bag)), Filter(keep, all));
  }

  /** De-duplicating keeps strict order: adjacent copies are the only copies. */
  lemma {:induction false} DistinctStrict<R(!new)>(before: (R, R) -> bool, s: seq<R>)
    requires TotalOn(before, s) && Sorted(before, s)
    ensures forall i, j :: 0 <= i < j < |Distinct(s)| ==> before(Distinct(s)[i], Distinct(s)[j])
    ensures s != [] ==> Distinct(s)[|Distinct(s)| - 1] == s[|s| - 1]
  {
    if s != [] {
      var init, x := s[..|s| - 1], s[|s| - 1];
      assert s == init + [x];
      DistinctStrict(before, init);
      DistinctMembers(init);
      if x in init {
        var k :| 0 <= k < |init| && init[k] == x;
        assert init[|init| - 1] == x by {
          assert init[|init| - 1] in s;
          if k < |init| - 1 { assert !before(init[|init| - 1], init[k]); }
        }
      } else {
        forall y | y in Distinct(init) ensures before(y, x) {
          assert y in init && y in s;
        }
      }
    }
  }

  lemma {:induction false} DistinctUnique<R(!new)>(s: seq<R>)
    ensures forall i, j :: 0 <= i < j < |Distinct(s)| ==> Distinct(s)[i] != Distinct(s)[j]
  {
    if s != [] {
      DistinctUnique(s[..|s| - 1]);
      DistinctMembers(s[..|s| - 1]);
    }
  }

  /** Nothing was folded away exactly when the list is returned unchanged. */
  lemma {:induction false} DistinctFull<R(!new)>(s: seq<R>)
    requires |Distinct(s)| == |s|
    ensures Distinct(s) == s
  {
    if s != [] {
      assert s == s[..|s| - 1] + [s[|s| - 1]];
      DistinctFull(s[..|s| - 1]);
    }
  }

  lemma DistinctSnoc<R(!new)>(s: seq<R>, y: R)
    ensures Distinct(s + [y]) == if y in s then Distinct(s) else Distinct(s) + [y]
  {
    assert (s + [y])[..|s + [y]| - 1] == s;
  }

  lemma FilterSnoc<R(!new)>(keep: R -> bool, s: seq<R>, y: R)
    ensures Filter(keep, s + [y]) == if keep(y) then Filter(keep, s) + [y] else Filter(keep, s)
  {
    assert (s + [y])[..|s + [y]| - 1] == s;
  }

  lemma {:induction false} FilterNone<R>(keep: R -> bool, s: seq<R>)
    requires forall i :: 0 <= i < |s| ==> !keep(s[i])
    ensures Filter(keep, s) == []
  {
    if s != [] {
      FilterNone(keep, s[..|s| - 1]);
    }
  }

  /** Cutting a sorted list at any row splits its distinct rows at that row: the part up to the
      cut and the rows strictly after it. */
  lemma {:induction false} DistinctCut<R(!new)>(before: (R, R) -> bool, s: seq<R>, m: nat, after: R -> bool)
    requires TotalOn(before, s) && Sorted(before, s)
    requires 0 < m <= |s|
    requires forall y :: after(y) <==> before(s[m - 1], y)
    ensures Distinct(s) == Distinct(s[..m]) + Distinct(Filter(after, s))
    decreases |s|
  {
    if m == |s| {
      FilterNone(after, s);
      assert s[..m] == s;
      assert Distinct(s) + [] == Distinct(s);
    } else {
      var init, y := s[..|s| - 1], s[|s| - 1];
      assert s == init + [y] && init[..m] == s[..m] && init[m - 1] == s[m - 1];
      CutStepBack(before, init, y, m, after);
    }
  }

  lemma {:induction false} CutStepBack<R(!new)>(before: (R, R) -> bool, init: seq<R>, y: R, m: nat, after: R -> bool)
    requires TotalOn(before, init + [y]) && Sorted(before, init + [y])
    requires 0 < m <= |init|
    requires forall z :: after(z) <==> before(init[m - 1], z)
    ensures Distinct(init + [y]) == Distinct(init[..m]) + Distinct(Filter(after, init + [y]))
    decreases |init| + 1, 0
  {
    assert TotalOn(before, init) by {
      forall z | z in init ensures z in init + [y] {}
    }
    assert Sorted(before, init) by {
      assert forall i :: 0 <= i < |init| ==> (init + [y])[i] == init[i];
    }
    DistinctCut(before, init, m, after);
    FilterMembers(after, init);
    CutMember(before, init, y, m, after);
    CutStep(init, y, Distinct(init[..m]), after);
  }

  lemma CutMember<R(!new)>(before: (R, R) -> bool, init: seq<R>, y: R, m: nat, after: R -> bool)
    requires TotalOn(before, init + [y]) && Sorted(before, init + [y])
    requires 0 < m <= |init|
    requires forall z :: after(z) <==> before(init[m - 1], z)
    ensures !after(y) ==> y in init
  {
    var c := init[m - 1];
    var s := init + [y];
    assert s[m - 1] == c && s[|init|] == y && !before(s[|init|], s[m - 1]);
    assert c in s && y in s;
  }

  lemma CutStep<R(!new)>(init: seq<R>, y: R, d: seq<R>, after: R -> bool)
    requires !after(y) ==> y in init
    requires after(y) ==> (y in init <==> y in Filter(after, init))
    requires Distinct(init) == d + Distinct(Filter(after, init))
    ensures Distinct(init + [y]) == d + Distinct(Filter(after, init + [y]))
  {
    hide Distinct, Filter;
    var rest := Filter(after, init);
    DistinctSnoc(init, y);
    FilterSnoc(after, init, y);
    DistinctSnoc(rest, y);
    if after(y) && y !in init {
      assert (d + Distinct(rest)) + [y] == d + (Distinct(rest) + [y]);
    }
  }

  lemma {:induction false} ReverseAppend<R>(s: seq<R>, t: seq<R>)
    ensures Reverse(s + t) == Reverse(t) + Reverse(s)
  {
    if t == [] {
      assert s + t == s;
    } else {
      assert (s + t)[..|s + t| - 1] == s + t[..|t| - 1];
      ReverseAppend(s, t[..|t| - 1]);
    }
  }

  lemma {:induction false} ReverseMultiset<R>(s: seq<R>)
    ensures multiset(Reverse(s)) == multiset(s)
  {
    if s != [] {
      assert s == s[..|s| - 1] + [s[|s| - 1]];
      ReverseMultiset(s[..|s| - 1]);
    }
  }

  /** Ordering by the inverse order returns the same rows read backwards. */
  lemma OrderedFlip<R(!new)>(before: (R, R) -> bool, flipped: (R, R) -> bool, bag: seq<R>)
    requires TotalOn(before, bag)
    requires forall x, y :: flipped(x, y) <==> before(y, x)
    ensures TotalOn(flipped, bag)
    ensures Ordered(flipped, bag) == Reverse(Ordered(before, bag))
  {
    assert forall x, y, z :: flipped(x, y) && flipped(y, z) ==> flipped(x, z);
    var all := Ordered(before, bag);
    OrderedSorted(before, bag);
    OrderedSorted(flipped, bag);
    ReverseMultiset(all);
    SameMembers(Ordered(flipped, bag), bag);
    assert Sorted(flipped, Reverse(all));
    SortedUnique(flipped, Ordered(flipped, bag), Reverse(all));
  }

  lemma StrictSameLast<R(!new)>(before: (R, R) -> bool, s: seq<R>, t: seq<R>)
    requires forall x, y :: before(x, y) ==> !before(y, x)
    requires forall i, j :: 0 <= i < j < |s| ==> before(s[i], s[j])
    requires forall i, j :: 0 <= i < j < |t| ==> before(t[i], t[j])
    requires s != [] && t != [] && s[|s| - 1] in t && t[|t| - 1] in s
    ensures s[|s| - 1] == t[|t| - 1]
  {
    var i :| 0 <= i < |s| && s[i] == t[|t| - 1];
    var j :| 0 <= j < |t| && t[j] == s[|s| - 1];
  }

  lemma NoMembers<R(!new)>(s: seq<R>, t: seq<R>)
    requires forall x :: x in t ==> x in s
    ensures s == [] ==> t == []
  {
    assert t != [] ==> t[0] in t;
  }

  /** Two strictly ordered lists with the same members are the same list. */
  lemma {:induction false} StrictUnique<R(!new)>(before: (R, R) -> bool, s: seq<R>, t: seq<R>)
    requires forall x, y :: before(x, y) ==> !before(y, x)
    requires forall i, j :: 0 <= i < j < |s| ==> before(s[i], s[j])
    requires forall i, j :: 0 <= i < j < |t| ==> before(t[i], t[j])
    requires forall x :: x in s <==> x in t
    ensures s == t
  {
    NoMembers(s, t);
    NoMembers(t, s);
    if s != [] {
      StrictSameLast(before, s, t);
      var s', t', x := s[..|s| - 1], t[..|t| - 1], s[|s| - 1];
      assert s == s' + [x] && t == t' + [x];
      forall z ensures z in s' <==> z in t' {
        assert z in s' ==> z in t && before(z, x);
        assert z in t' ==> z in s && before(z, x);
      }
      StrictUnique(before, s', t');
    }
  }

  /** The distinct rows of the reversed order are the distinct rows reversed. */
  lemma DistinctReverse<R(!new)>(before: (R, R) -> bool, s: seq<R>)
    requires TotalOn(before, s) && Sorted(before, s)
    ensures Distinct(Reverse(s)) == Reverse(Distinct(s))
  {
    var flipped := (x: R, y: R) => before(y, x);
    var rev := Reverse(s);
    ReverseMultiset(s);
    SameMembers(rev, s);
    assert TotalOn(flipped, rev) by {
      assert forall x, y, z :: flipped(x, y) && flipped(y, z) ==> flipped(x, z);
    }
    DistinctStrict(flipped, rev);
    DistinctStrict(before, s);
    ReverseMultiset(Distinct(s));
    SameMembers(Reverse(Distinct(s)), Distinct(s));
    DistinctMembers(s);
    DistinctMembers(rev);
    assert forall x, y :: flipped(x, y) ==> !flipped(y, x);
    StrictUnique(flipped, Distinct(rev), Reverse(Distinct(s)));
  }
}
