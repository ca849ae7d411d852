/** The retention job: committed batches, oldest first, skipping locked rows. */
module PurgeJob {
  import opened Wrappers
  import opened Arithmetic

  type Id = int

  const MAX_BATCHES: nat := 10_000
  const MAX_BATCH_SIZE: nat := 0x1F_FFFF_FFFF_FFFF

  datatype BatchSize = Bool(flag: bool) | Int(n: int) | Float(r: real) | Other

  datatype PurgeResult = PurgeResult(deleted: nat, batches: nat)

  /** A whole number of rows from 1 to the largest safe integer; a bool is not a number here. */
  function Size(size: BatchSize): (n: Option<nat>)
    ensures n.Some? ==> 1 <= n.value <= MAX_BATCH_SIZE
  {
    match size
    case Int(n) => if 1 <= n <= MAX_BATCH_SIZE then Some(n) else None
    case Float(r) =>
      if 1.0 <= r <= MAX_BATCH_SIZE as real && r.Floor as real == r then Some(r.Floor) else None
    case _ => None
  }

  /** The setting is this whole number, and the number is in range. */
  predicate Denotes(size: BatchSize, n: int) {
    && 1 <= n <= 9_007_199_254_740_991
    && (size == Int(n) || (size.Float? && size.r == n as real))
  }

  /** A batch size is accepted if and only if it denotes a number in range, and as that number. */
  lemma SizeIs(size: BatchSize, n: int)
    ensures (n >= 0 && Size(size) == Some(n as nat)) <==> Denotes(size, n)
    ensures Size(size).None? <==> forall k: int :: !Denotes(size, k)
  {
    if Size(size).Some? { assert Denotes(size, Size(size).value); }
  }

  lemma SizeDenotes(size: BatchSize)
    ensures Size(size).None? <==> forall n: int :: !Denotes(size, n)
    ensures forall n: nat :: Denotes(size, n) ==> n >= 1 && Size(size) == Some(n)
  {
    SizeIs(size, 0);
    forall n: nat | Denotes(size, n) ensures Size(size) == Some(n) { SizeIs(size, n); }
  }

  /** Sessions by id, with their expiry. */
  type Table = map<Id, int>

  function Eligible(table: Table, cutoff: int): set<Id> {
    set id | id in table && table[id] < cutoff
  }

  /** What ORDER BY expires_at LIMIT n may select. */
  predicate Oldest(table: Table, chosen: set<Id>, candidates: set<Id>, n: nat)
    requires candidates <= table.Keys
  {
    && chosen <= candidates
    && |chosen| == (if |candidates| < n then |candidates| else n)
    && forall x, y :: x in chosen && y in candidates && y !in chosen ==> table[x] <= table[y]
  }

  lemma {:induction false} Minimum(table: Table, s: set<Id>) returns (m: Id)
    requires s != {} && s <= table.Keys
    ensures m in s && forall y :: y in s ==> table[m] <= table[y]
    decreases |s|
  {
    assert (forall x :: x !in s) ==> s == {};
    m :| m in s;
    if s != {m} {
      var rest := Minimum(table, s - {m});
      if table[rest] < table[m] { m := rest; }
    }
  }

  lemma {:induction false} OldestExists(table: Table, candidates: set<Id>, n: nat)
    requires candidates <= table.Keys
    ensures exists chosen :: chosen <= candidates && Oldest(table, chosen, candidates, n)
    decreases n
  {
    if n == 0 || candidates == {} {
      assert Oldest(table, {}, candidates, n);
    } else {
      var m := Minimum(table, candidates);
      OldestExists(table, candidates - {m}, n - 1);
      var chosen :| chosen <= candidates - {m} && Oldest(table, chosen, candidates - {m}, n - 1);
      assert |candidates - {m}| == |candidates| - 1;
      assert Oldest(table, chosen + {m}, candidates, n);
    }
  }

  /** Rows some batch so far has skipped. */
  predicate Skipped(locks: nat -> set<Id>, batches: nat, id: Id) {
    exists k: nat :: k < batches && id in locks(k)
  }

  /** What any number of committed batches has done to the table: only eligible rows are gone, and
      each of them is older than every eligible row left, unless that one was skipped as locked. */
  ghost predicate Purged(start: Table, table: Table, cutoff: int, locks: nat -> set<Id>, batches: nat) {
    && table.Keys <= start.Keys
    && (forall id :: id in table ==> table[id] == start[id])
    && (forall id :: id in start && id !in table ==> start[id] < cutoff)
    && (forall x, y :: x in start && x !in table && y in table && table[y] < cutoff && !Skipped(locks, batches, y)
          ==> start[x] <= start[y])
  }

  lemma PurgedNext(start: Table, table: Table, cutoff: int, locks: nat -> set<Id>, batches: nat, chosen: set<Id>,
                   n: nat)
    requires Purged(start, table, cutoff, locks, batches)
    requires Oldest(table, chosen, Eligible(table, cutoff) - locks(batches), n)
    ensures Purged(start, table - chosen, cutoff, locks, batches + 1)
    ensures Eligible(table - chosen, cutoff) == Eligible(table, cutoff) - chosen
  {
    var after := table - chosen;
    forall x, y | x in start && x !in after && y in after && after[y] < cutoff && !Skipped(locks, batches + 1, y)
      ensures start[x] <= start[y]
    {
      StillSkipped(locks, batches, y);
      assert y in Eligible(table, cutoff) - locks(batches);
    }
  }

  lemma StillSkipped(locks: nat -> set<Id>, batches: nat, y: Id)
    requires !Skipped(locks, batches + 1, y)
    ensures !Skipped(locks, batches, y) && y !in locks(batches)
  {
    assert !(batches < batches + 1 && y in locks(batches));
  }

  lemma Removed(start: Table, table: Table, chosen: set<Id>)
    requires table.Keys <= start.Keys && chosen <= table.Keys
    ensures |start.Keys - (table - chosen).Keys| == |start.Keys - table.Keys| + |chosen|
  {
    assert start.Keys - (table - chosen).Keys == (start.Keys - table.Keys) + chosen;
  }

  /** `batches` full batches of `b` rows have gone, out of e eligible ones. */
  ghost predicate AllFull(e: nat, b: nat, batches: nat, deleted: nat, left: nat) {
    deleted == batches * b && deleted + left == e
  }

  lemma FullNext(e: nat, b: nat, batches: nat, deleted: nat, left: nat, batch: nat)
    requires AllFull(e, b, batches, deleted, left) && batch == Min(b, left) && batch == b
    ensures AllFull(e, b, batches + 1, deleted + batch, left - batch)
  {
    assert (batches + 1) * b == batches * b + b;
  }

  /** A batch that is not full is the last: everything eligible is gone. */
  lemma LastBatch(e: nat, b: nat, batches: nat, deleted: nat, left: nat, batch: nat)
    requires AllFull(e, b, batches, deleted, left) && batch == Min(b, left) && batch < b && batches < MAX_BATCHES
    ensures b >= 1 && PurgeResult(deleted + batch, batches + 1) == Expected(e, b)
  {
    Quotient(e, b, batches);
    assert (batches + 1) * b == batches * b + b;
    Multiply(batches + 1, MAX_BATCHES, b);
  }

  lemma Quotient(e: nat, b: nat, q: nat)
    requires 1 <= b && q * b <= e < q * b + b
    ensures e / b == q
  {
    var q' := e / b;
    assert q' * b <= e < q' * b + b;
    assert (q' + 1) * b == q' * b + b && (q + 1) * b == q * b + b;
    if q' < q { Multiply(q' + 1, q, b); }
    if q < q' { Multiply(q + 1, q', b); }
  }

  lemma CapReached(e: nat, b: nat, deleted: nat, left: nat)
    requires 1 <= b && AllFull(e, b, MAX_BATCHES, deleted, left)
    ensures PurgeResult(deleted, MAX_BATCHES) == Expected(e, b)
  {
    var q := e / b;
    assert e < q * b + b && (q + 1) * b == q * b + b;
    if q + 1 <= MAX_BATCHES { Multiply(q + 1, MAX_BATCHES, b); }
  }

  /** What an uncontended run over e eligible rows with batches of b rows returns. */
  function Expected(e: nat, b: nat): PurgeResult
    requires b >= 1
  {
    PurgeResult(Min(e, MAX_BATCHES * b), Min(MAX_BATCHES, e / b + 1))
  }

  /** With batches of n rows at most 10,000 n rows go, and a last batch finds that none are left. */
  ghost predicate Completes(size: BatchSize, e: nat, result: Option<PurgeResult>) {
    forall n: nat :: Denotes(size, n) ==>
      n >= 1 && result == Some(PurgeResult(Min(e, 10_000 * n), Min(10_000, e / n + 1)))
  }

  lemma ExpectedCompletes(size: BatchSize, e: nat)
    requires Size(size).Some?
    ensures Completes(size, e, Some(Expected(e, Size(size).value)))
  {
    SizeDenotes(size);
    hide Size, Denotes;
  }

  lemma RefusedCompletes(size: BatchSize, e: nat, result: Option<PurgeResult>)
    requires Size(size).None?
    ensures Completes(size, e, result)
  {
    SizeDenotes(size);
  }

  /** Whatever is left past the cutoff was locked. */
  predicate OnlyLockedLeft(table: Table, cutoff: int, locked: set<Id>) {
    forall id :: id in table && table[id] < cutoff ==> id in locked
  }

  ghost predicate Uncontended(locks: nat -> set<Id>) {
    forall k: nat :: locks(k) == {}
  }

  // ---- Sessions issued while the job runs ----

  /** Every row there has been by the time of a batch. */
  function Ever(start: Table, arrivals: nat -> Table, batches: nat): Table {
    if batches == 0 then start else Ever(start, arrivals, batches - 1) + arrivals(batches - 1)
  }

  /** Sessions issued during the job have fresh ids and expire after its cutoff, which lies in the past
      when the job starts. */
  ghost predicate Issued(start: Table, arrivals: nat -> Table, cutoff: int) {
    forall k: nat :: New(Ever(start, arrivals, k), arrivals(k), cutoff)
  }

  predicate New(ever: Table, arrived: Table, cutoff: int) {
    ever.Keys !! arrived.Keys && forall id :: id in arrived ==> arrived[id] >= cutoff
  }

  lemma ArrivalsAreNew(start: Table, arrivals: nat -> Table, cutoff: int, batches: nat)
    requires Issued(start, arrivals, cutoff)
    ensures New(Ever(start, arrivals, batches), arrivals(batches), cutoff)
  {}

  lemma PurgedArrive(start: Table, table: Table, cutoff: int, locks: nat -> set<Id>, batches: nat, arrived: Table)
    requires Purged(start, table, cutoff, locks, batches)
    requires New(start, arrived, cutoff)
    ensures Purged(start + arrived, table + arrived, cutoff, locks, batches)
    ensures (start + arrived).Keys - (table + arrived).Keys == start.Keys - table.Keys
    ensures Eligible(table + arrived, cutoff) == Eligible(table, cutoff)
  {
    assert table.Keys !! arrived.Keys;
    assert (start + arrived).Keys - (table + arrived).Keys == start.Keys - table.Keys;
    forall id ensures id in Eligible(table + arrived, cutoff) <==> id in Eligible(table, cutoff) {
      assert id in arrived ==> id !in table && arrived[id] >= cutoff;
    }
  }

  /** After some batches: the counter is the number of rows gone, and they went as they should. */
  ghost predicate Progress(start: Table, table: Table, cutoff: int, locks: nat -> set<Id>, arrivals: nat -> Table,
                           batches: nat, deleted: nat) {
    && deleted == |Ever(start, arrivals, batches).Keys - table.Keys|
    && Purged(Ever(start, arrivals, batches), table, cutoff, locks, batches)
  }

  class Job {
    var table: Table

    /** One statement and its commit; which of equally old rows go is the database's choice. */
    method DeleteBatch(cutoff: int, locked: set<Id>, n: nat) returns (batch: nat, ghost chosen: set<Id>)
      modifies this
      ensures Oldest(old(table), chosen, Eligible(old(table), cutoff) - locked, n)
      ensures table == old(table) - chosen && batch == |chosen|
    {
      var candidates := Eligible(table, cutoff) - locked;
      OldestExists(table, candidates, n);
      var victims: set<Id> :| victims <= candidates && Oldest(table, victims, candidates, n);
      batch, chosen, table := |victims|, victims, table - victims;
    }

    /** One round of the loop: sessions arrive, then a batch goes. */
    method Round(cutoff: int, locks: nat -> set<Id>, arrivals: nat -> Table, batches: nat, n: nat, ghost start: Table,
                 ghost deleted: nat)
      returns (batch: nat)
      requires Progress(start, table, cutoff, locks, arrivals, batches, deleted) && Issued(start, arrivals, cutoff)
      modifies this
      ensures Progress(start, table, cutoff, locks, arrivals, batches + 1, deleted + batch)
      ensures batch <= n && |Eligible(table, cutoff)| == |Eligible(old(table), cutoff)| - batch
      ensures Uncontended(locks) ==> batch == Min(n, |Eligible(old(table), cutoff)|)
      ensures batch < n ==> Eligible(table, cutoff) <= locks(batches)
    {
      hide Purged, Oldest, Eligible, Skipped, Uncontended, New, Min, Ever, Issued;
      ArrivalsAreNew(start, arrivals, cutoff, batches);
      EverNext(start, arrivals, batches);
      table := table + arrivals(batches);
      ghost var chosen;
      batch, chosen := DeleteBatch(cutoff, locks(batches), n);
      BatchStep(Ever(start, arrivals, batches), old(table), arrivals(batches), chosen, cutoff, locks, batches, n);
    }

    /** The whole job. `locks` are the rows each batch finds locked and `arrivals` the sessions issued
        before it; the batch `aborted` runs into its lock timeout, if it gets that far, and fails the job
        with the earlier batches committed. */
    method Purge(size: BatchSize, cutoff: int, locks: nat -> set<Id>, arrivals: nat -> Table, aborted: Option<nat>)
      returns (result: Option<PurgeResult>)
      requires Issued(table, arrivals, cutoff)
      modifies this
      ensures (forall n :: !Denotes(size, n)) ==> result == Some(PurgeResult(0, 0)) && table == old(table)
      ensures result.Some? ==> result.value.batches <= MAX_BATCHES
      ensures result.Some? ==>
                Progress(old(table), table, cutoff, locks, arrivals, result.value.batches, result.value.deleted)
      ensures result.None? ==> aborted.Some? && exists deleted ::
                Progress(old(table), table, cutoff, locks, arrivals, aborted.value, deleted)
      ensures aborted.None? && Uncontended(locks) ==> Completes(size, |Eligible(old(table), cutoff)|, result)
      ensures result.Some? && 0 < result.value.batches < 10_000 ==>
                OnlyLockedLeft(table, cutoff, locks(result.value.batches - 1))
      ensures (exists n :: Denotes(size, n)) && result.Some? ==> result.value.batches > 0
    {
      hide Progress, Eligible, Uncontended, AllFull, Size, Min, Expected, Issued, Denotes, Completes, OnlyLockedLeft;
      var valid := Size(size);
      SizeDenotes(size);
      NoProgress(table, cutoff, locks, arrivals);
      if valid.None? {
        RefusedCompletes(size, |Eligible(table, cutoff)|, Some(PurgeResult(0, 0)));
        return Some(PurgeResult(0, 0));
      }
      var batchSize := valid.value;
      ExpectedCompletes(size, |Eligible(table, cutoff)|);
      var deleted, batches := 0, 0;
      ghost var start, e := table, |Eligible(table, cutoff)|;
      NoneDeleted(e, batchSize);
      while batches < MAX_BATCHES
        invariant batches <= MAX_BATCHES
        invariant Progress(start, table, cutoff, locks, arrivals, batches, deleted)
        invariant Uncontended(locks) ==> AllFull(e, batchSize, batches, deleted, |Eligible(table, cutoff)|)
      {
        if aborted == Some(batches) {
          return None;
        }
        ghost var left := |Eligible(table, cutoff)|;
        var batch := Round(cutoff, locks, arrivals, batches, batchSize, start, deleted);
        if Uncontended(locks) {
          BatchAccounts(e, batchSize, batches, deleted, left, batch);
        }
        deleted := deleted + batch;
        batches := batches + 1;
        if batch < batchSize {
          LeftIsLocked(table, cutoff, locks(batches - 1));
          return Some(PurgeResult(deleted, batches));
        }
      }
      if Uncontended(locks) {
        CapReached(e, batchSize, deleted, |Eligible(table, cutoff)|);
      }
      result := Some(PurgeResult(deleted, batches));
    }
  }

  lemma LeftIsLocked(table: Table, cutoff: int, locked: set<Id>)
    requires Eligible(table, cutoff) <= locked
    ensures OnlyLockedLeft(table, cutoff, locked)
  {
    forall id | id in table && table[id] < cutoff ensures id in locked { assert id in Eligible(table, cutoff); }
  }

  lemma NoProgress(table: Table, cutoff: int, locks: nat -> set<Id>, arrivals: nat -> Table)
    ensures Progress(table, table, cutoff, locks, arrivals, 0, 0)
  {
    NothingPurged(table, cutoff, locks);
  }

  lemma EverNext(start: Table, arrivals: nat -> Table, batches: nat)
    ensures Ever(start, arrivals, batches + 1) == Ever(start, arrivals, batches) + arrivals(batches)
  {}

  /** One round: sessions arrive, then a batch goes. */
  lemma BatchStep(ever: Table, table: Table, arrived: Table, chosen: set<Id>, cutoff: int, locks: nat -> set<Id>,
                  batches: nat, n: nat)
    requires Purged(ever, table, cutoff, locks, batches)
    requires New(ever, arrived, cutoff)
    requires Oldest(table + arrived, chosen, Eligible(table + arrived, cutoff) - locks(batches), n)
    ensures Purged(ever + arrived, table + arrived - chosen, cutoff, locks, batches + 1)
    ensures |(ever + arrived).Keys - (table + arrived - chosen).Keys| == |ever.Keys - table.Keys| + |chosen|
    ensures |chosen| <= n
    ensures |Eligible(table + arrived - chosen, cutoff)| == |Eligible(table, cutoff)| - |chosen|
    ensures |chosen| < n ==> Eligible(table + arrived - chosen, cutoff) <= locks(batches)
    ensures Uncontended(locks) ==> |chosen| == Min(n, |Eligible(table, cutoff)|)
  {
    hide Purged, Oldest, Eligible, Skipped, Uncontended;
    PurgedArrive(ever, table, cutoff, locks, batches, arrived);
    BatchCounts(ever + arrived, table + arrived, chosen, cutoff, locks, batches, n);
  }

  lemma BatchAccounts(e: nat, b: nat, batches: nat, deleted: nat, left: nat, batch: nat)
    requires AllFull(e, b, batches, deleted, left) && batch == Min(b, left) && batches < MAX_BATCHES
    ensures batch < b ==> b >= 1 && PurgeResult(deleted + batch, batches + 1) == Expected(e, b)
    ensures batch == b ==> AllFull(e, b, batches + 1, deleted + batch, left - batch)
  {
    hide AllFull, Expected;
    if batch < b {
      LastBatch(e, b, batches, deleted, left, batch);
    } else {
      FullNext(e, b, batches, deleted, left, batch);
    }
  }

  lemma NoneDeleted(e: nat, b: nat)
    ensures AllFull(e, b, 0, 0, e)
  {}

  lemma NothingPurged(table: Table, cutoff: int, locks: nat -> set<Id>)
    ensures Purged(table, table, cutoff, locks, 0) && table.Keys - table.Keys == {}
  {}

  lemma BatchCounts(start: Table, table: Table, chosen: set<Id>, cutoff: int, locks: nat -> set<Id>, batches: nat,
                    n: nat)
    requires Purged(start, table, cutoff, locks, batches)
    requires Oldest(table, chosen, Eligible(table, cutoff) - locks(batches), n)
    ensures Purged(start, table - chosen, cutoff, locks, batches + 1)
    ensures |start.Keys - (table - chosen).Keys| == |start.Keys - table.Keys| + |chosen|
    ensures |chosen| <= n
    ensures |Eligible(table - chosen, cutoff)| == |Eligible(table, cutoff)| - |chosen|
    ensures |chosen| < n ==> Eligible(table - chosen, cutoff) <= locks(batches)
    ensures Uncontended(locks) ==> |chosen| == Min(n, |Eligible(table, cutoff)|)
  {
    hide Purged, Skipped;
    var candidates := Eligible(table, cutoff) - locks(batches);
    PurgedNext(start, table, cutoff, locks, batches, chosen, n);
    assert table.Keys <= start.Keys by { PurgedKeys(start, table, cutoff, locks, batches); }
    Removed(start, table, chosen);
    Remaining(Eligible(table, cutoff), chosen);
    ShortBatch(chosen, Eligible(table, cutoff), locks(batches), n);
    EligibleLeft(table, chosen, cutoff);
    assert locks(batches) == {} ==> candidates == Eligible(table, cutoff);
  }

  lemma PurgedKeys(start: Table, table: Table, cutoff: int, locks: nat -> set<Id>, batches: nat)
    requires Purged(start, table, cutoff, locks, batches)
    ensures table.Keys <= start.Keys
  {}

  lemma EligibleLeft(table: Table, chosen: set<Id>, cutoff: int)
    ensures Eligible(table - chosen, cutoff) == Eligible(table, cutoff) - chosen
  {}

  lemma ShortBatch(chosen: set<Id>, eligible: set<Id>, locked: set<Id>, n: nat)
    requires chosen <= eligible - locked && (|chosen| < n ==> |chosen| == |eligible - locked|)
    ensures |chosen| < n ==> eligible - chosen <= locked
  {
    if |chosen| < n { SubsetIsAll(chosen, eligible - locked); }
  }

  lemma SubsetIsAll(s: set<Id>, t: set<Id>)
    requires s <= t && |s| == |t|
    ensures s == t
  {
    assert t == s + (t - s);
  }

  lemma Remaining(s: set<Id>, chosen: set<Id>)
    requires chosen <= s
    ensures |s - chosen| == |s| - |chosen|
  {
    assert s == (s - chosen) + chosen;
  }
}
