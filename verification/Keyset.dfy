/** Cursor conditions: the OR-of-AND-prefixes predicate, evaluated in SQL's three-valued logic,
    against the lexicographic order that ORDER BY executes. */
module Keyset {
  import opened Wrappers
  import opened Sorting
  import opened SortTerms

  /** A table row; an absent column is NULL. */
  type Row<V> = map<Column, V>

  datatype Truth = True | False | Unknown

  datatype Op = Eq | Lt | Gt | Le | Ge

  datatype Clause<V> =
    | Compare(column: Column, op: Op, value: V)
    | And(parts: seq<Clause<V>>)
    | Or(parts: seq<Clause<V>>)

  ghost predicate StrictTotal<T(!new)>(lt: (T, T) -> bool) {
    && (forall x :: !lt(x, x))
    && (forall x, y, z :: lt(x, y) && lt(y, z) ==> lt(x, z))
    && (forall x, y {:trigger lt(x, y)} :: x == y || lt(x, y) || lt(y, x))
  }

  function Cell<V>(row: Row<V>, column: Column): Option<V> {
    if column in row then Some(row[column]) else None
  }

  function CompareTo<V(==)>(lt: (V, V) -> bool, op: Op, x: V, y: V): bool {
    match op
    case Eq => x == y
    case Lt => lt(x, y)
    case Gt => lt(y, x)
    case Le => x == y || lt(x, y)
    case Ge => x == y || lt(y, x)
  }

  /** A comparison with NULL is unknown; AND and OR are Kleene's. */
  function Eval<V(==)>(lt: (V, V) -> bool, clause: Clause<V>, row: Row<V>): Truth {
    match clause
    case Compare(column, op, value) =>
      if column !in row then Unknown else if CompareTo(lt, op, row[column], value) then True else False
    case And(parts) => EvalAnd(lt, parts, row)
    case Or(parts) => EvalOr(lt, parts, row)
  }

  function EvalAnd<V(==)>(lt: (V, V) -> bool, parts: seq<Clause<V>>, row: Row<V>): (r: Truth)
    ensures r == True <==> forall i :: 0 <= i < |parts| ==> Eval(lt, parts[i], row) == True
  {
    if parts == [] then True
    else
      var first, rest := Eval(lt, parts[0], row), EvalAnd(lt, parts[1..], row);
      if first == False || rest == False then False
      else if first == True && rest == True then True else Unknown
  }

  function EvalOr<V(==)>(lt: (V, V) -> bool, parts: seq<Clause<V>>, row: Row<V>): (r: Truth)
    ensures r == True <==> exists i :: 0 <= i < |parts| && Eval(lt, parts[i], row) == True
  {
    if parts == [] then False
    else
      var first, rest := Eval(lt, parts[0], row), EvalOr(lt, parts[1..], row);
      if first == True || rest == True then True
      else if first == False && rest == False then False else Unknown
  }

  /** WHERE keeps a row only when its condition is definitely true. */
  predicate Holds<V(==)>(lt: (V, V) -> bool, clause: Clause<V>, row: Row<V>) {
    Eval(lt, clause, row) == True
  }

  function StrictOp(descending: bool): Op {
    if descending then Lt else Gt
  }

  function BoundOp(descending: bool): Op {
    if descending then Le else Ge
  }

  function Prefix<V>(order: seq<OrderTerm>, values: seq<V>, n: nat): (r: seq<Clause<V>>)
    requires n <= |order| == |values|
  {
    seq(n, k requires 0 <= k < n => Compare(order[k].column, Eq, values[k]))
  }

  /** Equal on the first `i` columns and strictly beyond the cursor on column `i`. */
  function Disjunct<V>(order: seq<OrderTerm>, values: seq<V>, before: bool, i: nat): Clause<V>
    requires i < |order| == |values|
  {
    And(Prefix(order, values, i) + [Compare(order[i].column, StrictOp(order[i].descending != before), values[i])])
  }

  function Disjuncts<V>(order: seq<OrderTerm>, values: seq<V>, before: bool): seq<Clause<V>>
    requires |order| == |values|
  {
    seq(|order|, i requires 0 <= i < |order| => Disjunct(order, values, before, i))
  }

  function Leading<V>(order: seq<OrderTerm>, values: seq<V>, before: bool): Clause<V>
    requires 0 < |order| == |values|
  {
    Compare(order[0].column, BoundOp(order[0].descending != before), values[0])
  }

  function KeysetClause<V>(order: seq<OrderTerm>, values: seq<V>, before: bool): Clause<V>
    requires 0 < |order| == |values|
  {
    And([Leading(order, values, before), Or(Disjuncts(order, values, before))])
  }

  /** What a cursor does to the statement; InvalidPage is the 400 error. */
  datatype Restriction<V> = Unrestricted | InvalidPage | Restricted(where: Clause<V>)

  function Restrict<V>(sorts: seq<SortTerm>, policy: QueryPolicy, values: seq<V>, before: bool): Restriction<V> {
    var order := KeysetColumns(sorts, policy);
    if values == [] then Unrestricted
    else if order.None? || |order.value| != |values| then InvalidPage
    else Restricted(KeysetClause(order.value, values, before))
  }

  /** Builds the condition column by column. */
  method ApplyKeyset<V>(sorts: seq<SortTerm>, policy: QueryPolicy, values: seq<V>, before: bool)
    returns (restriction: Restriction<V>)
    ensures restriction == Restrict(sorts, policy, values, before)
  {
    if values == [] {
      return Unrestricted;
    }
    var resolved := KeysetColumns(sorts, policy);
    if resolved.None? || |resolved.value| != |values| {
      return InvalidPage;
    }
    var order := resolved.value;
    var clauses: seq<Clause<V>> := [];
    for index := 0 to |order|
      invariant clauses == Disjuncts(order, values, before)[..index]
    {
      var prefix: seq<Clause<V>> := [];
      for position := 0 to index
        invariant prefix == Prefix(order, values, position)
      {
        prefix := prefix + [Compare(order[position].column, Eq, values[position])];
      }
      var descending := order[index].descending != before;
      var comparison := Compare(order[index].column, if descending then Lt else Gt, values[index]);
      clauses := clauses + [And(prefix + [comparison])];
      assert clauses[index] == Disjunct(order, values, before, index);
    }
    assert clauses == Disjuncts(order, values, before);
    var leadingDescending := order[0].descending != before;
    var bound := Compare(order[0].column, if leadingDescending then Le else Ge, values[0]);
    return Restricted(And([bound, Or(clauses)]));
  }

  // ---- The order ORDER BY executes ----

  /** PostgreSQL sorts NULL after every value when ascending. */
  function NullsLast<V>(lt: (V, V) -> bool): (Option<V>, Option<V>) -> bool {
    (x: Option<V>, y: Option<V>) => x.Some? && (y.None? || lt(x.value, y.value))
  }

  predicate Precedes<T>(lt: (T, T) -> bool, descending: bool, x: T, y: T) {
    if descending then lt(y, x) else lt(x, y)
  }

  /** Lexicographic comparison with a direction for every position. */
  predicate LexBefore<T(==)>(lt: (T, T) -> bool, order: seq<OrderTerm>, a: seq<T>, b: seq<T>)
    requires |order| == |a| == |b|
    decreases |a|
  {
    |a| > 0 && (Precedes(lt, order[0].descending, a[0], b[0])
                || (a[0] == b[0] && LexBefore(lt, order[1..], a[1..], b[1..])))
  }

  function Key<V>(order: seq<OrderTerm>, row: Row<V>): (k: seq<Option<V>>)
    ensures |k| == |order|
  {
    seq(|order|, i requires 0 <= i < |order| => Cell(row, order[i].column))
  }

  function Before<V(==)>(lt: (V, V) -> bool, order: seq<OrderTerm>): (Row<V>, Row<V>) -> bool {
    (a: Row<V>, b: Row<V>) => LexBefore(NullsLast(lt), order, Key(order, a), Key(order, b))
  }

  lemma NullsLastTotal<V(!new)>(lt: (V, V) -> bool)
    requires StrictTotal(lt)
    ensures StrictTotal(NullsLast(lt))
  {
    var nl := NullsLast(lt);
    forall x, y ensures x == y || nl(x, y) || nl(y, x) {
      if x.Some? && y.Some? && !lt(x.value, y.value) && x.value != y.value { assert lt(y.value, x.value); }
    }
  }

  lemma {:induction false} LexIrreflexive<T(!new)>(lt: (T, T) -> bool, order: seq<OrderTerm>, a: seq<T>)
    requires StrictTotal(lt) && |order| == |a|
    ensures !LexBefore(lt, order, a, a)
    decreases |a|
  {
    if a != [] { LexIrreflexive(lt, order[1..], a[1..]); }
  }

  lemma {:induction false} LexTransitive<T(!new)>(lt: (T, T) -> bool, order: seq<OrderTerm>, a: seq<T>, b: seq<T>,
                                                  c: seq<T>)
    requires StrictTotal(lt) && |order| == |a| == |b| == |c|
    requires LexBefore(lt, order, a, b) && LexBefore(lt, order, b, c)
    ensures LexBefore(lt, order, a, c)
    decreases |a|
  {
    if a[0] == b[0] && b[0] == c[0] && !Precedes(lt, order[0].descending, a[0], b[0]) {
      LexTransitive(lt, order[1..], a[1..], b[1..], c[1..]);
    }
  }

  lemma {:induction false} LexConnected<T(!new)>(lt: (T, T) -> bool, order: seq<OrderTerm>, a: seq<T>, b: seq<T>)
    requires StrictTotal(lt) && |order| == |a| == |b|
    ensures a == b || LexBefore(lt, order, a, b) || LexBefore(lt, order, b, a)
    decreases |a|
  {
    if a != [] {
      LexConnected(lt, order[1..], a[1..], b[1..]);
      assert lt(a[0], b[0]) || lt(b[0], a[0]) || a[0] == b[0];
      assert a == [a[0]] + a[1..] && b == [b[0]] + b[1..];
    }
  }

  lemma {:induction false} LexFlip<T>(lt: (T, T) -> bool, order: seq<OrderTerm>, a: seq<T>, b: seq<T>)
    requires |order| == |a| == |b|
    ensures LexBefore(lt, Flip(order), a, b) == LexBefore(lt, order, b, a)
    decreases |a|
  {
    if a != [] {
      assert Flip(order)[1..] == Flip(order[1..]);
      LexFlip(lt, order[1..], a[1..], b[1..]);
    }
  }

  /** LexBefore unrolled: some column decides and every earlier one ties. */
  lemma {:induction false} LexDecided<T>(lt: (T, T) -> bool, order: seq<OrderTerm>, a: seq<T>, b: seq<T>)
    requires |order| == |a| == |b|
    ensures LexBefore(lt, order, a, b) <==>
            exists i :: 0 <= i < |a| && a[..i] == b[..i] && Precedes(lt, order[i].descending, a[i], b[i])
    decreases |a|
  {
    if a != [] {
      LexDecided(lt, order[1..], a[1..], b[1..]);
      if LexBefore(lt, order, a, b) {
        if Precedes(lt, order[0].descending, a[0], b[0]) {
          assert a[..0] == b[..0];
        } else {
          var i :| 0 <= i < |a[1..]| && a[1..][..i] == b[1..][..i]
                   && Precedes(lt, order[1..][i].descending, a[1..][i], b[1..][i]);
          assert a[..i + 1] == [a[0]] + a[1..][..i] && b[..i + 1] == [b[0]] + b[1..][..i];
          assert Precedes(lt, order[i + 1].descending, a[i + 1], b[i + 1]);
        }
      }
      if i :| 0 <= i < |a| && a[..i] == b[..i] && Precedes(lt, order[i].descending, a[i], b[i]) {
        if i > 0 {
          assert a[..i][0] == b[..i][0];
          assert a[1..][..i - 1] == a[..i][1..] == b[..i][1..] == b[1..][..i - 1];
          assert Precedes(lt, order[1..][i - 1].descending, a[1..][i - 1], b[1..][i - 1]);
        }
      }
    }
  }

  /** A sort that reaches the unique column orders any two different rows. */
  lemma BeforeTotal<V(!new)>(lt: (V, V) -> bool, order: seq<OrderTerm>, unique: Column, bag: seq<Row<V>>)
    requires StrictTotal(lt)
    requires exists i :: 0 <= i < |order| && order[i].column == unique
    requires forall a, b :: a in bag && b in bag && Cell(a, unique) == Cell(b, unique) ==> a == b
    ensures TotalOn(Before(lt, order), bag)
  {
    var before, nl := Before(lt, order), NullsLast(lt);
    NullsLastTotal(lt);
    forall x ensures !before(x, x) {
      LexIrreflexive(nl, order, Key(order, x));
    }
    forall x, y, z | before(x, y) && before(y, z) ensures before(x, z) {
      LexTransitive(nl, order, Key(order, x), Key(order, y), Key(order, z));
    }
    var i :| 0 <= i < |order| && order[i].column == unique;
    forall x, y | x in bag && y in bag && x != y ensures before(x, y) || before(y, x) {
      LexConnected(nl, order, Key(order, x), Key(order, y));
      assert Key(order, x)[i] == Cell(x, unique) && Key(order, y)[i] == Cell(y, unique);
    }
  }

  lemma BeforeFlip<V>(lt: (V, V) -> bool, order: seq<OrderTerm>, a: Row<V>, b: Row<V>)
    ensures Before(lt, Flip(order))(a, b) == Before(lt, order)(b, a)
  {
    LexFlip(NullsLast(lt), order, Key(order, a), Key(order, b));
    assert Key(Flip(order), a) == Key(order, a) && Key(Flip(order), b) == Key(order, b);
  }

  // ---- The predicate is the order ----

  predicate NoNulls<V>(order: seq<OrderTerm>, row: Row<V>) {
    forall i :: 0 <= i < |order| ==> order[i].column in row
  }

  function Position<V>(values: seq<V>): (k: seq<Option<V>>)
    ensures |k| == |values|
  {
    seq(|values|, i requires 0 <= i < |values| => Some(values[i]))
  }

  /** Strictly beyond the cursor in the direction the request walks. */
  predicate Beyond<V(==)>(lt: (V, V) -> bool, order: seq<OrderTerm>, values: seq<V>, before: bool, row: Row<V>)
    requires |order| == |values|
  {
    if before then LexBefore(NullsLast(lt), order, Key(order, row), Position(values))
    else LexBefore(NullsLast(lt), order, Position(values), Key(order, row))
  }

  lemma DisjunctHolds<V>(lt: (V, V) -> bool, order: seq<OrderTerm>, values: seq<V>, before: bool, row: Row<V>, i: nat)
    requires i < |order| == |values| && NoNulls(order, row)
    ensures Holds(lt, Disjunct(order, values, before, i), row) <==>
            && Key(order, row)[..i] == Position(values)[..i]
            && CompareTo(lt, StrictOp(order[i].descending != before), row[order[i].column], values[i])
  {
    var parts := Disjunct(order, values, before, i).parts;
    var key, pos := Key(order, row), Position(values);
    assert parts[i] == Compare(order[i].column, StrictOp(order[i].descending != before), values[i]);
    forall k | 0 <= k < i
      ensures Eval(lt, parts[k], row) == True <==> key[k] == pos[k]
    {
      assert parts[k] == Compare(order[k].column, Eq, values[k]);
    }
    if key[..i] == pos[..i] {
      forall k | 0 <= k < i ensures key[k] == pos[k] { assert key[..i][k] == pos[..i][k]; }
    }
  }

  /** The OR of AND prefixes selects exactly the rows strictly beyond the cursor. */
  lemma DisjunctsExact<V(!new)>(lt: (V, V) -> bool, order: seq<OrderTerm>, values: seq<V>, before: bool, row: Row<V>)
    requires 0 < |order| == |values| && NoNulls(order, row)
    ensures Holds(lt, Or(Disjuncts(order, values, before)), row) <==> Beyond(lt, order, values, before, row)
  {
    var key, pos, nl := Key(order, row), Position(values), NullsLast(lt);
    var parts := Disjuncts(order, values, before);
    LexDecided(nl, order, pos, key);
    LexDecided(nl, order, key, pos);
    forall i | 0 <= i < |order|
      ensures Holds(lt, parts[i], row) <==>
              && key[..i] == pos[..i]
              && (if before then Precedes(nl, order[i].descending, key[i], pos[i])
                  else Precedes(nl, order[i].descending, pos[i], key[i]))
    {
      DisjunctHolds(lt, order, values, before, row, i);
    }
  }

  /** The leading bound changes nothing, for any row and any nullability. */
  lemma LeadingBoundRedundant<V(!new)>(lt: (V, V) -> bool, order: seq<OrderTerm>, values: seq<V>, before: bool,
                                       row: Row<V>)
    requires 0 < |order| == |values|
    ensures Holds(lt, KeysetClause(order, values, before), row)
            <==> Holds(lt, Or(Disjuncts(order, values, before)), row)
  {
    var parts := KeysetClause(order, values, before).parts;
    var disjuncts := Disjuncts(order, values, before);
    if i :| 0 <= i < |disjuncts| && Holds(lt, disjuncts[i], row) {
      var conjuncts := disjuncts[i].parts;
      assert Eval(lt, conjuncts[0], row) == True;
      assert i > 0 ==> conjuncts[0] == Compare(order[0].column, Eq, values[0]);
      assert Eval(lt, parts[0], row) == True;
    }
    assert parts[1] == Or(disjuncts);
  }

  /** The whole clause is the strict lexicographic order. */
  lemma KeysetExact<V(!new)>(lt: (V, V) -> bool, order: seq<OrderTerm>, values: seq<V>, before: bool, row: Row<V>)
    requires 0 < |order| == |values| && NoNulls(order, row)
    ensures Holds(lt, KeysetClause(order, values, before), row) <==> Beyond(lt, order, values, before, row)
  {
    LeadingBoundRedundant(lt, order, values, before, row);
    DisjunctsExact(lt, order, values, before, row);
  }

  /** The row equals the cursor on the first n sort columns. */
  predicate TiesTo<V(==)>(order: seq<OrderTerm>, values: seq<V>, row: Row<V>, n: nat)
    requires n <= |order| == |values|
  {
    forall k :: 0 <= k < n ==> Cell(row, order[k].column) == Some(values[k])
  }

  lemma TiedRowIsLost<V(!new)>(lt: (V, V) -> bool, order: seq<OrderTerm>, values: seq<V>, before: bool, row: Row<V>,
                               n: nat)
    requires n < |order| == |values| && StrictTotal(lt)
    requires order[n].column !in row && TiesTo(order, values, row, n)
    ensures !Holds(lt, KeysetClause(order, values, before), row)
  {
    LeadingBoundRedundant(lt, order, values, before, row);
    var disjuncts := Disjuncts(order, values, before);
    forall i | 0 <= i < |disjuncts| ensures Eval(lt, disjuncts[i], row) != True {
      var conjuncts := disjuncts[i].parts;
      if i < n {
        assert conjuncts[i] == Compare(order[i].column, StrictOp(order[i].descending != before), values[i]);
        assert Cell(row, order[i].column) == Some(values[i]);
      } else {
        assert conjuncts[n].column == order[n].column;
        assert Eval(lt, conjuncts[n], row) == Unknown;
      }
    }
  }

  /** The first column that differs from the cursor puts the row on one side of it. */
  lemma DifferingRowIsKept<V(!new)>(lt: (V, V) -> bool, order: seq<OrderTerm>, values: seq<V>, row: Row<V>, k: nat)
    returns (before: bool)
    requires k < |order| == |values| && StrictTotal(lt)
    requires order[k].column in row && row[order[k].column] != values[k] && TiesTo(order, values, row, k)
    ensures Holds(lt, KeysetClause(order, values, before), row)
  {
    before := lt(row[order[k].column], values[k]) != order[k].descending;
    LeadingBoundRedundant(lt, order, values, before, row);
    var disjunct := Disjuncts(order, values, before)[k];
    assert disjunct == Disjunct(order, values, before, k);
    var parts := disjunct.parts;
    forall i | 0 <= i < |parts| ensures Eval(lt, parts[i], row) == True {
      assert i < k ==>
             Cell(row, order[i].column) == Some(values[i]) && parts[i] == Compare(order[i].column, Eq, values[i]);
      assert lt(row[order[k].column], values[k]) || lt(values[k], row[order[k].column]);
    }
    assert Eval(lt, disjunct, row) == True;
  }

  lemma {:induction false} FirstDifference<V>(order: seq<OrderTerm>, values: seq<V>, row: Row<V>, n: nat)
    returns (k: nat)
    requires n <= |order| == |values| && !TiesTo(order, values, row, n)
    ensures k < n && TiesTo(order, values, row, k) && Cell(row, order[k].column) != Some(values[k])
  {
    k := 0;
    while Cell(row, order[k].column) == Some(values[k])
      invariant k < n && TiesTo(order, values, row, k)
      decreases n - k
    {
      assert TiesTo(order, values, row, k + 1);
      k := k + 1;
    }
  }

  /** Why nullable sort columns are refused: a row whose first NULL sort column is the n-th lies on neither
      side of a cursor, so that no walk through it returns the row, if and only if it ties with the
      cursor on all columns before. */
  lemma NullRowIsLost<V(!new)>(lt: (V, V) -> bool, order: seq<OrderTerm>, values: seq<V>, row: Row<V>, n: nat)
    requires n < |order| == |values| && StrictTotal(lt)
    requires order[n].column !in row && NoNulls(order[..n], row)
    ensures (forall before: bool :: !Holds(lt, KeysetClause(order, values, before), row))
            <==> TiesTo(order, values, row, n)
  {
    if TiesTo(order, values, row, n) {
      forall before: bool ensures !Holds(lt, KeysetClause(order, values, before), row) {
        TiedRowIsLost(lt, order, values, before, row, n);
      }
    } else {
      var k := FirstDifference(order, values, row, n);
      assert order[..n][k] == order[k];
      var before := DifferingRowIsKept(lt, order, values, row, k);
    }
  }
}
