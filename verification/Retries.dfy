/** The worker's retry schedule: exponential backoff with integer jitter under a cap. */
module Retries {
  import opened Wrappers
  import opened Arithmetic

  /** Seven days in milliseconds. */
  const CAP: nat := 604_800_000
  const BASE: nat := 15_000

  /** How processing failed: with an exception the actor declares in `throws`, or with an explicit
      retry delay. */
  datatype Failure = Failure(throws: bool, delay: Option<int>)

  datatype Options = Options(maxRetries: Option<nat>, minBackoff: nat, maxBackoff: nat,
                             retryWhen: Option<(nat, Failure) -> bool>, notifies: bool)

  function Power(n: nat): (p: nat)
    ensures p >= 1
  {
    if n == 0 then 1 else 2 * Power(n - 1)
  }

  /** The wait before retry n, given the jitter drawn from [0, 10n). */
  function Delay(options: Options, n: nat, draw: nat): int
    requires n >= 1
  {
    Min(options.minBackoff * Power(Min(n - 1, 32)) + draw * 1000, Min(options.maxBackoff, CAP))
  }

  /** A `retry_when` decides alone; without it the maximum does, and without a maximum every retry is allowed. */
  predicate Allowed(options: Options, completed: nat, failure: Failure): (allowed: bool)
    ensures options.retryWhen.Some? ==> allowed == options.retryWhen.value(completed, failure)
    ensures options.retryWhen.None? && options.maxRetries.Some? ==> (allowed <==> completed < options.maxRetries.value)
    ensures options.retryWhen.None? && options.maxRetries.None? ==> allowed
  {
    if options.retryWhen.Some? then options.retryWhen.value(completed, failure)
    else options.maxRetries.None? || completed < options.maxRetries.value
  }

  /** A message with its retry counter, the delays it was enqueued with, and its end. */
  class Message {
    var retries: nat
    var enqueued: seq<int>
    var failed: bool
    var notified: nat

    constructor ()
      ensures retries == 0 && enqueued == [] && !failed && notified == 0
    {
      retries, enqueued, failed, notified := 0, [], false, 0;
    }

    method AfterProcessMessage(options: Options, failure: Option<Failure>, draw: nat)
      modifies this
      ensures failure.None? ==> unchanged(this)
      ensures failure.Some? && failure.value.throws ==>
                failed && retries == old(retries) && enqueued == old(enqueued) && notified == old(notified)
      ensures failure.Some? && !failure.value.throws ==> retries == old(retries) + 1
      ensures failure.Some? && !failure.value.throws && !Allowed(options, old(retries), failure.value) ==>
                failed && enqueued == old(enqueued) && notified == old(notified) + (if options.notifies then 1 else 0)
      ensures failure.Some? && !failure.value.throws && Allowed(options, old(retries), failure.value) ==>
                && failed == old(failed) && notified == old(notified)
                && enqueued == old(enqueued) + [if failure.value.delay.Some? then failure.value.delay.value
                                                else Delay(options, old(retries) + 1, draw)]
    {
      if failure.None? {
        return;
      }
      if failure.value.throws {
        failed := true;
        return;
      }
      var completed := retries;
      retries := completed + 1;
      if !Allowed(options, completed, failure.value) {
        failed := true;
        if options.notifies { notified := notified + 1; }
        return;
      }
      var delay := if failure.value.delay.Some? then failure.value.delay.value else Delay(options, completed + 1, draw);
      enqueued := enqueued + [delay];
    }

    /** A message that fails every time: exactly maxRetries re-enqueues, then the failure, with every
        delay drawn as scheduled. */
    method Exhaust(options: Options, draw: nat -> nat)
      requires retries == 0 && enqueued == [] && !failed
      requires options.maxRetries.Some? && options.retryWhen.None?
      modifies this
      ensures failed && |enqueued| == options.maxRetries.value && retries == |enqueued| + 1
      ensures forall n :: 1 <= n <= |enqueued| ==> enqueued[n - 1] == Delay(options, n, draw(n))
      ensures enqueued == Delays(options, draw, options.maxRetries.value)
    {
      hide Delay;
      while !failed
        invariant !failed ==> retries == |enqueued| <= options.maxRetries.value
        invariant failed ==> |enqueued| == options.maxRetries.value && retries == |enqueued| + 1
        invariant forall n :: 1 <= n <= |enqueued| ==> enqueued[n - 1] == Delay(options, n, draw(n))
        decreases if failed then 0 else 1, options.maxRetries.value - retries
      {
        AfterProcessMessage(options, Some(Failure(false, None)), draw(retries + 1));
      }
    }
  }

  /** The delays of the first n retries. */
  function Delays(options: Options, draw: nat -> nat, n: nat): seq<int> {
    seq(n, i requires 0 <= i < n => Delay(options, i + 1, draw(i + 1)))
  }

  // ---- Windows ----

  ghost predicate Jitter(draw: nat -> nat) {
    forall n: nat :: n >= 1 ==> draw(n) < 10 * n
  }

  function Low(base: nat, n: nat): nat
    requires n >= 1
  {
    base * Power(n - 1)
  }

  function High(base: nat, n: nat): nat
    requires n >= 1
  {
    Low(base, n) + (10 * n - 1) * 1000
  }

  lemma {:induction false} PowerMonotone(a: nat, b: nat)
    requires a <= b
    ensures Power(a) <= Power(b)
    decreases b
  {
    if a < b { PowerMonotone(a, b - 1); }
  }

  /** Doubling outgrows the jitter: the windows of successive retries are disjoint and ascending,
      for every n, exactly when the base is above 9.5 seconds. */
  lemma WindowsAscend(base: nat)
    ensures (forall n: nat :: n >= 1 ==> High(base, n) < Low(base, n + 1)) <==> base > 9_500
  {
    assert Power(0) == 1 && Power(1) == 2 && Power(2) == 4;
    assert High(base, 2) == base * 2 + 19_000 && Low(base, 3) == base * 4;
    if base > 9_500 {
      forall n: nat | n >= 1 ensures High(base, n) < Low(base, n + 1) {
        Outgrows(base, n);
      }
    }
  }

  lemma {:induction false} Outgrows(base: nat, n: nat)
    requires base > 9_500 && n >= 1
    ensures (10 * n - 1) * 1000 < Low(base, n) && High(base, n) < Low(base, n + 1)
    decreases n
  {
    assert Low(base, n + 1) == 2 * Low(base, n) by { LowDoubles(base, n); }
    if n <= 3 {
      assert Power(0) == 1 && Power(1) == 2 && Power(2) == 4;
    } else {
      Outgrows(base, n - 1);
      assert Low(base, n) == 2 * Low(base, n - 1) by { LowDoubles(base, n - 1); }
    }
  }

  lemma LowDoubles(base: nat, n: nat)
    requires n >= 1
    ensures Low(base, n + 1) == 2 * Low(base, n)
  {
    assert base * (2 * Power(n - 1)) == 2 * (base * Power(n - 1));
  }

  /** The schedule of the repository's actors: fifteen seconds doubling under the seven-day cap. */
  predicate Standard(options: Options) {
    options.minBackoff == BASE && options.maxBackoff >= CAP
  }

  lemma Powers()
    ensures Power(15) == 32_768 && Power(16) == 65_536
  {
    assert Power(4) == 16;
    assert Power(8) == 256;
    assert Power(12) == 4096;
  }

  /** Retry n waits within its window up to the sixteenth, and exactly the cap from then on. */
  lemma DelayInWindow(options: Options, n: nat, draw: nat)
    requires Standard(options) && n >= 1 && draw < 10 * n
    ensures n <= 16 ==> Delay(options, n, draw) == Low(BASE, n) + draw * 1000
                        && Low(BASE, n) <= Delay(options, n, draw) <= High(BASE, n) < CAP
    ensures n > 16 ==> Delay(options, n, draw) == CAP
  {
    Powers();
    if n <= 16 {
      PowerMonotone(n - 1, 15);
      Multiply(Power(n - 1), Power(15), BASE);
    } else {
      var k := Min(n - 1, 32);
      PowerMonotone(16, k);
      Multiply(Power(16), Power(k), BASE);
    }
  }

  /** With any base and cap, retry n waits within its window cut off at the cap. */
  lemma DelayIsCapped(options: Options, n: nat, draw: nat)
    requires n >= 1 && draw < 10 * n
    ensures var base, cap := options.minBackoff * Power(Min(n - 1, 32)), Min(options.maxBackoff, CAP);
            Min(base, cap) <= Delay(options, n, draw) <= Min(base + (10 * n - 1) * 1000, cap)
  {}

  // ---- The total wait ----

  function Sum(s: seq<int>): int
    decreases |s|
  {
    if s == [] then 0 else Sum(s[..|s| - 1]) + s[|s| - 1]
  }

  /** Fifteen seconds times 2^n - 1 up to the sixteenth retry, then the cap each time. */
  function LeastTotal(n: nat): int {
    var m := Min(n, 16);
    BASE * (Power(m) - 1) + (n - m) * CAP
  }

  function Square(m: int): int {
    m * m
  }

  /** The largest sum the jitter adds: 9 + 19 + ... seconds. */
  function MostJitter(n: nat): int {
    var m := Min(n, 16);
    1000 * (5 * Square(m) + 4 * m)
  }

  /** A message that fails n times waits between these totals. */
  lemma {:induction false} TotalWait(options: Options, draw: nat -> nat, n: nat)
    requires Standard(options) && Jitter(draw)
    ensures LeastTotal(n) <= Sum(Delays(options, draw, n)) <= LeastTotal(n) + MostJitter(n)
    decreases n
  {
    hide Delay, LeastTotal, MostJitter, Low, High;
    TotalStep(n);
    if n > 0 {
      TotalWait(options, draw, n - 1);
      DelayInWindow(options, n, draw(n));
      assert Delays(options, draw, n)[..n - 1] == Delays(options, draw, n - 1);
      HighIs(BASE, n);
    }
  }

  lemma HighIs(base: nat, n: nat)
    requires n >= 1
    ensures High(base, n) == Low(base, n) + (10 * n - 1) * 1000
  {}

  lemma TotalStep(n: nat)
    ensures n == 0 ==> LeastTotal(n) == 0 && MostJitter(n) == 0
    ensures 1 <= n <= 16 ==> LeastTotal(n) == LeastTotal(n - 1) + Low(BASE, n)
                             && MostJitter(n) == MostJitter(n - 1) + (10 * n - 1) * 1000
    ensures n > 16 ==> LeastTotal(n) == LeastTotal(n - 1) + CAP && MostJitter(n) == MostJitter(n - 1)
  {
    if n == 0 {
      assert Power(0) == 1;
    } else if n <= 16 {
      TotalGrows(n);
    } else {
      hide Power;
      assert Min(n, 16) == Min(n - 1, 16) == 16;
    }
  }

  lemma TotalGrows(n: nat)
    requires 1 <= n <= 16
    ensures LeastTotal(n) == LeastTotal(n - 1) + Low(BASE, n)
    ensures MostJitter(n) == MostJitter(n - 1) + (10 * n - 1) * 1000
  {
    assert Power(n) == 2 * Power(n - 1);
    SquareNext(n - 1);
    hide Power, Square;
  }

  lemma SquareNext(m: int)
    ensures Square(m + 1) == Square(m) + 2 * m + 1
  {}
}
