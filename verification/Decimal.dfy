/** Decimal numerals as `str(n)` writes them and the page parameters read them. */
module Decimal {
  import opened Wrappers

  const MAX_SQL_INTEGER: nat := 0x7FFF_FFFF_FFFF_FFFF
  const MAX_DIGITS: nat := 19

  function Digit(d: nat): char
    requires d < 10
  {
    ('0' as int + d) as char
  }

  function Value(c: char): int {
    c as int - '0' as int
  }

  predicate IsDigit(c: char) {
    '0' <= c <= '9'
  }

  function Numeral(n: nat): string {
    if n < 10 then [Digit(n)] else Numeral(n / 10) + [Digit(n % 10)]
  }

  predicate AllDigits(s: string) {
    forall i :: 0 <= i < |s| ==> IsDigit(s[i])
  }

  function Number(s: string): (n: nat)
    requires AllDigits(s)
    decreases |s|
  {
    if s == "" then 0 else 10 * Number(s[..|s| - 1]) + Value(s[|s| - 1])
  }

  function Power10(n: nat): nat {
    if n == 0 then 1 else 10 * Power10(n - 1)
  }

  /** One to nineteen digits denoting a positive SQL integer. */
  function PositiveInteger(s: string): Option<nat> {
    if |s| > MAX_DIGITS || s == "" || !AllDigits(s) then None
    else if 1 <= Number(s) <= MAX_SQL_INTEGER then Some(Number(s))
    else None
  }

  lemma {:induction false} NumeralReads(n: nat)
    ensures Numeral(n) != "" && AllDigits(Numeral(n)) && Number(Numeral(n)) == n
  {
    if n < 10 {
      assert [Digit(n)][..0] == "";
    } else {
      NumeralReads(n / 10);
      assert Numeral(n)[..|Numeral(n)| - 1] == Numeral(n / 10);
    }
  }

  lemma {:induction false} NumeralLength(n: nat, k: nat)
    requires k >= 1 && n < Power10(k)
    ensures |Numeral(n)| <= k
    decreases k
  {
    if n >= 10 {
      assert k > 1 by { assert Power10(1) == 10 * Power10(0); }
      NumeralLength(n / 10, k - 1);
    }
  }

  lemma Power10Is()
    ensures Power10(19) == 10_000_000_000_000_000_000
  {
    assert Power10(4) == 10_000;
    assert Power10(8) == 1_0000_0000;
    assert Power10(12) == 1_0000_0000_0000;
    assert Power10(16) == 1_0000_0000_0000_0000;
  }

  /** Reading back a printed positive integer. */
  lemma PositiveIntegerReads(n: nat)
    requires 1 <= n <= MAX_SQL_INTEGER
    ensures PositiveInteger(Numeral(n)) == Some(n)
  {
    NumeralReads(n);
    Power10Is();
    NumeralLength(n, 19);
  }

  // ---- Exactly what is accepted ----

  function Zeros(k: nat): string {
    seq(k, _ => '0')
  }

  /** Any digits are some zeros and a numeral, or zeros only. */
  lemma {:induction false} DigitsAre(s: string) returns (k: nat)
    requires AllDigits(s)
    ensures if Number(s) == 0 then s == Zeros(|s|) else k <= |s| && s == Zeros(k) + Numeral(Number(s))
    decreases |s|
  {
    k := 0;
    if s != "" {
      var init, last := s[..|s| - 1], s[|s| - 1];
      k := DigitsAre(init);
      assert s == init + [last];
      var n, d := Number(init), Value(last);
      assert last == Digit(d) && Number(s) == 10 * n + d;
      if n == 0 {
        if d == 0 { assert s == Zeros(|s|); } else { k := |init|; assert s == Zeros(k) + Numeral(d); }
      } else {
        assert (10 * n + d) / 10 == n && (10 * n + d) % 10 == d;
        assert Zeros(k) + Numeral(n) + [last] == Zeros(k) + (Numeral(n) + [last]);
      }
    }
  }

  lemma {:induction false} ZerosRead(k: nat, s: string)
    requires AllDigits(s)
    ensures AllDigits(Zeros(k) + s) && Number(Zeros(k) + s) == Number(s)
    decreases |s|, k
  {
    var all := Zeros(k) + s;
    if s != "" {
      assert all[..|all| - 1] == Zeros(k) + s[..|s| - 1];
      ZerosRead(k, s[..|s| - 1]);
    } else if k > 0 {
      assert all[..|all| - 1] == Zeros(k - 1) + "";
      ZerosRead(k - 1, "");
    }
  }

  /** A page number or size is read as n if and only if it is the numeral of n, perhaps after zeros, of at most
      nineteen digits, and n lies between 1 and 2^63 - 1. */
  lemma PositiveIntegerIs(s: string, n: nat)
    ensures PositiveInteger(s) == Some(n)
            <==> 1 <= n <= 9_223_372_036_854_775_807 && |s| <= 19 && exists k: nat :: s == Zeros(k) + Numeral(n)
  {
    if PositiveInteger(s) == Some(n) {
      var k := DigitsAre(s);
    }
    if k: nat :| s == Zeros(k) + Numeral(n) {
      NumeralReads(n);
      ZerosRead(k, Numeral(n));
    }
  }
}
