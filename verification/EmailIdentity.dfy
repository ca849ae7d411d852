/** The email identity migration and its rollback, statement by statement. */
module EmailIdentity {
  import opened Wrappers

  type Id = int
  type Emails = map<Id, string>

  /** Login validation followed by normalization; None when login rejects the address. */
  type Canonical = string -> Option<string>

  datatype Backup = Backup(original: string, canonical: string)
  datatype Rejection = RejectedAddress | Collision

  predicate Unique(users: Emails) {
    forall a, b :: a in users && b in users && a != b ==> users[a] != users[b]
  }

  /** Normalizing a canonical address changes nothing. */
  ghost predicate Idempotent(canonical: Canonical) {
    forall email: string :: canonical(email).Some? ==> canonical(canonical(email).value) == canonical(email)
  }

  /** The rows a SELECT over all users lists: every id, once. */
  ghost predicate Lists(rows: seq<Id>, users: Emails) {
    && (forall k :: 0 <= k < |rows| ==> rows[k] in users)
    && (forall id :: id in users ==> id in rows)
    && (forall i, j :: 0 <= i < j < |rows| ==> rows[i] != rows[j])
  }

  // ---- Upgrade ----

  ghost predicate Normalizable(users: Emails, canonical: Canonical) {
    && (forall id :: id in users ==> canonical(users[id]).Some?)
    && (forall a, b :: a in users && b in users && a != b ==> canonical(users[a]) != canonical(users[b]))
  }

  function Normal(email: string, canonical: Canonical): string {
    if canonical(email).Some? then canonical(email).value else email
  }

  function Normalized(users: Emails, canonical: Canonical): Emails {
    map id | id in users :: Normal(users[id], canonical)
  }

  function BackedUp(users: Emails, canonical: Canonical): map<Id, Backup> {
    map id | id in users && Normal(users[id], canonical) != users[id] :: Backup(users[id], Normal(users[id], canonical))
  }

  // ---- Downgrade ----

  /** The address a user has after the rollback. */
  function Target(users: Emails, backups: map<Id, Backup>, id: Id): string
    requires id in users
  {
    if id in backups && users[id] == backups[id].canonical then backups[id].original else users[id]
  }

  function Restored(users: Emails, backups: map<Id, Backup>): Emails {
    map id | id in users :: Target(users, backups, id)
  }

  /** Every backup records an address and its canonical form. */
  ghost predicate Faithful(backups: map<Id, Backup>, canonical: Canonical) {
    forall id :: id in backups ==> canonical(backups[id].original) == Some(backups[id].canonical)
  }

  // ---- The two loops of the upgrade ----

  type Change = (Id, Backup)

  function Ids(changed: seq<Change>): set<Id> {
    set k | 0 <= k < |changed| :: changed[k].0
  }

  ghost predicate Differs(users: Emails, canonical: Canonical, id: Id) {
    id in users && Normal(users[id], canonical) != users[id]
  }

  /** `changed` holds, once each, the rows listed so far whose address is not canonical. */
  ghost predicate Recorded(changed: seq<Change>, rows: seq<Id>, users: Emails, canonical: Canonical) {
    && (forall k :: 0 <= k < |changed| ==>
          Differs(users, canonical, changed[k].0)
          && changed[k].1 == Backup(users[changed[k].0], Normal(users[changed[k].0], canonical)))
    && (forall j, k :: 0 <= j < k < |changed| ==> changed[j].0 != changed[k].0)
    && (forall id :: id in Ids(changed) <==> id in rows && Differs(users, canonical, id))
  }

  lemma RecordNext(changed: seq<Change>, rows: seq<Id>, i: nat, users: Emails, canonical: Canonical)
    requires i < |rows| && Lists(rows, users) && Recorded(changed, rows[..i], users, canonical)
    ensures !Differs(users, canonical, rows[i]) ==> Recorded(changed, rows[..i + 1], users, canonical)
    ensures var change := (rows[i], Backup(users[rows[i]], Normal(users[rows[i]], canonical)));
            Differs(users, canonical, rows[i]) ==> Recorded(changed + [change], rows[..i + 1], users, canonical)
  {
    assert rows[..i + 1] == rows[..i] + [rows[i]];
    if Differs(users, canonical, rows[i]) {
      var change := (rows[i], Backup(users[rows[i]], Normal(users[rows[i]], canonical)));
      assert rows[i] !in rows[..i];
      assert forall k :: 0 <= k < |changed| ==> changed[k].0 in Ids(changed);
      assert Ids(changed + [change]) == Ids(changed) + {rows[i]} by { IdsAppend(changed, change); }
    }
  }

  lemma IdsAppend(changed: seq<Change>, change: Change)
    ensures Ids(changed + [change]) == Ids(changed) + {change.0}
  {
    assert forall k :: 0 <= k < |changed| ==> (changed + [change])[k] == changed[k];
    assert (changed + [change])[|changed|] == change;
  }

  /** The users once the ids in `done` have been rewritten. */
  function NormalizedUpTo(users: Emails, canonical: Canonical, done: set<Id>): Emails {
    map id | id in users :: if id in done then Normal(users[id], canonical) else users[id]
  }

  function BackedUpTo(users: Emails, canonical: Canonical, done: set<Id>): map<Id, Backup> {
    map id | id in users && id in done :: Backup(users[id], Normal(users[id], canonical))
  }

  /** An address still to be rewritten never equals a canonical address already written. */
  lemma NormalNeverClashes(users: Emails, canonical: Canonical, done: set<Id>, id: Id, other: Id)
    requires Normalizable(users, canonical) && Idempotent(canonical) && id in users && other in users && other != id
    ensures NormalizedUpTo(users, canonical, done)[other] != Normal(users[id], canonical)
  {
    assert canonical(canonical(users[id]).value) == canonical(users[id]);
    assert canonical(users[other]) != canonical(users[id]);
  }

  // ---- Scanning for collisions ----

  ghost predicate AllDiffer(found: seq<string>, seen: set<string>) {
    && (forall c :: c in seen <==> c in found)
    && (forall j, k :: 0 <= j < k < |found| ==> found[j] != found[k])
  }

  lemma DifferNext(found: seq<string>, seen: set<string>, c: string)
    requires AllDiffer(found, seen) && c !in seen
    ensures AllDiffer(found + [c], seen + {c})
  {}

  ghost predicate Scanned(found: seq<string>, rows: seq<Id>, users: Emails, canonical: Canonical) {
    |found| == |rows|
    && forall k :: 0 <= k < |rows| ==> rows[k] in users && canonical(users[rows[k]]) == Some(found[k])
  }

  ghost predicate Collide(users: Emails, canonical: Canonical, a: Id, b: Id) {
    a in users && b in users && a != b && canonical(users[a]) == canonical(users[b])
  }

  lemma ListedRow(rows: seq<Id>, users: Emails, i: nat)
    requires Lists(rows, users) && i < |rows|
    ensures rows[i] in users
  {}

  lemma NothingScanned(rows: seq<Id>, users: Emails, canonical: Canonical)
    ensures Scanned([], rows[..0], users, canonical) && AllDiffer([], {}) && Recorded([], rows[..0], users, canonical)
  {}

  lemma NotNormalizable(users: Emails, canonical: Canonical, id: Id)
    requires id in users && canonical(users[id]).None?
    ensures !Normalizable(users, canonical)
  {}

  lemma ScanNext(found: seq<string>, seen: set<string>, rows: seq<Id>, i: nat, users: Emails, canonical: Canonical)
    requires i < |rows| && rows[i] in users && canonical(users[rows[i]]).Some?
    requires Scanned(found, rows[..i], users, canonical) && AllDiffer(found, seen)
    requires canonical(users[rows[i]]).value !in seen
    ensures var c := canonical(users[rows[i]]).value;
            Scanned(found + [c], rows[..i + 1], users, canonical) && AllDiffer(found + [c], seen + {c})
  {
    DifferNext(found, seen, canonical(users[rows[i]]).value);
    assert rows[..i + 1] == rows[..i] + [rows[i]];
  }

  lemma ScanCollides(found: seq<string>, seen: set<string>, rows: seq<Id>, i: nat, users: Emails, canonical: Canonical)
    requires Lists(rows, users) && i < |rows| && rows[i] in users && canonical(users[rows[i]]).Some?
    requires Scanned(found, rows[..i], users, canonical) && AllDiffer(found, seen)
    requires canonical(users[rows[i]]).value in seen
    ensures !Normalizable(users, canonical) && exists a, b :: Collide(users, canonical, a, b)
  {
    var k :| 0 <= k < |found| && found[k] == canonical(users[rows[i]]).value;
    assert rows[..i][k] == rows[k];
    assert Collide(users, canonical, rows[k], rows[i]);
  }

  lemma AllScanned(found: seq<string>, seen: set<string>, rows: seq<Id>, users: Emails, canonical: Canonical)
    requires Lists(rows, users) && Scanned(found, rows, users, canonical) && AllDiffer(found, seen)
    ensures Normalizable(users, canonical)
  {
    forall a, b | a in users && b in users && a != b ensures canonical(users[a]) != canonical(users[b]) {
      var i :| 0 <= i < |rows| && rows[i] == a;
      var j :| 0 <= j < |rows| && rows[j] == b;
      assert found[i] != found[j];
    }
  }

  // ---- Writing the changes ----

  lemma NothingWritten(users: Emails, canonical: Canonical)
    ensures NormalizedUpTo(users, canonical, Ids([])) == users && BackedUpTo(users, canonical, Ids([])) == map[]
  {}

  lemma WriteNext(changed: seq<Change>, rows: seq<Id>, i: nat, users: Emails, canonical: Canonical)
    requires i < |changed| && Recorded(changed, rows, users, canonical)
    requires Normalizable(users, canonical) && Idempotent(canonical)
    ensures var id, backup, done := changed[i].0, changed[i].1, Ids(changed[..i]);
            && id in users && id !in BackedUpTo(users, canonical, done)
            && NormalizedUpTo(users, canonical, done).Keys == users.Keys
            && (forall other :: other in users && other != id ==>
                  NormalizedUpTo(users, canonical, done)[other] != backup.canonical)
            && NormalizedUpTo(users, canonical, Ids(changed[..i + 1]))
               == NormalizedUpTo(users, canonical, done)[id := backup.canonical]
            && BackedUpTo(users, canonical, Ids(changed[..i + 1])) == BackedUpTo(users, canonical, done)[id := backup]
  {
    var id, backup, done := changed[i].0, changed[i].1, Ids(changed[..i]);
    IdsAppend(changed[..i], changed[i]);
    assert changed[..i + 1] == changed[..i] + [changed[i]];
    forall other | other in users && other != id
      ensures NormalizedUpTo(users, canonical, done)[other] != backup.canonical
    {
      NormalNeverClashes(users, canonical, done, id, other);
    }
  }

  lemma AllWritten(changed: seq<Change>, rows: seq<Id>, users: Emails, canonical: Canonical)
    requires Recorded(changed, rows, users, canonical) && Lists(rows, users)
    ensures NormalizedUpTo(users, canonical, Ids(changed)) == Normalized(users, canonical)
    ensures BackedUpTo(users, canonical, Ids(changed)) == BackedUp(users, canonical)
  {
    hide Ids;
    var done := Ids(changed);
    forall id | id in users ensures id in done <==> Normal(users[id], canonical) != users[id] {
      assert id in done <==> id in rows && Differs(users, canonical, id);
    }
    assert NormalizedUpTo(users, canonical, done) == Normalized(users, canonical);
    assert BackedUpTo(users, canonical, done) == BackedUp(users, canonical);
  }

  // ---- The loop of the downgrade ----

  function RestoredUpTo(users: Emails, backups: map<Id, Backup>, rows: seq<Id>, i: nat): Emails
    requires i <= |rows|
  {
    map id | id in users :: if id in rows[..i] then Target(users, backups, id) else users[id]
  }

  /** An original address about to be written back is held by no other row: rows done hold their
      target, and a row whose canonical address it were would be this row. */
  lemma RestoredNeverClashes(users: Emails, backups: map<Id, Backup>, canonical: Canonical, rows: seq<Id>, i: nat,
                             other: Id)
    requires Lists(rows, users) && Unique(users) && Unique(Restored(users, backups)) && i < |rows|
    requires Idempotent(canonical) && Faithful(backups, canonical)
    requires rows[i] in backups && users[rows[i]] == backups[rows[i]].canonical && other in users && other != rows[i]
    ensures RestoredUpTo(users, backups, rows, i)[other] != backups[rows[i]].original
  {
    var id := rows[i];
    assert Restored(users, backups)[id] != Restored(users, backups)[other];
    assert other in backups ==>
        canonical(canonical(backups[other].original).value) == canonical(backups[other].original);
  }

  ghost predicate Targets(found: seq<string>, rows: seq<Id>, users: Emails, backups: map<Id, Backup>) {
    |found| == |rows|
    && forall k :: 0 <= k < |rows| ==> rows[k] in users && Target(users, backups, rows[k]) == found[k]
  }

  lemma NothingRestored(rows: seq<Id>, users: Emails, backups: map<Id, Backup>)
    ensures Targets([], rows[..0], users, backups) && AllDiffer([], {})
            && RestoredUpTo(users, backups, rows, 0) == users
  {}

  lemma TargetNext(found: seq<string>, seen: set<string>, rows: seq<Id>, i: nat, users: Emails,
                   backups: map<Id, Backup>)
    requires i < |rows| && rows[i] in users && Targets(found, rows[..i], users, backups) && AllDiffer(found, seen)
    requires Target(users, backups, rows[i]) !in seen
    ensures var c := Target(users, backups, rows[i]);
            Targets(found + [c], rows[..i + 1], users, backups) && AllDiffer(found + [c], seen + {c})
  {
    DifferNext(found, seen, Target(users, backups, rows[i]));
    assert rows[..i + 1] == rows[..i] + [rows[i]];
  }

  lemma TargetCollides(found: seq<string>, seen: set<string>, rows: seq<Id>, i: nat, users: Emails,
                       backups: map<Id, Backup>)
    requires Lists(rows, users) && i < |rows| && rows[i] in users
    requires Targets(found, rows[..i], users, backups) && AllDiffer(found, seen)
    requires Target(users, backups, rows[i]) in seen
    ensures !Unique(Restored(users, backups))
  {
    var k :| 0 <= k < |found| && found[k] == Target(users, backups, rows[i]);
    assert rows[..i][k] == rows[k];
    assert Restored(users, backups)[rows[k]] == Restored(users, backups)[rows[i]];
  }

  lemma AllTargets(found: seq<string>, seen: set<string>, rows: seq<Id>, users: Emails, backups: map<Id, Backup>)
    requires Lists(rows, users) && Targets(found, rows, users, backups) && AllDiffer(found, seen)
    ensures Unique(Restored(users, backups))
  {
    forall a, b | a in users && b in users && a != b ensures Target(users, backups, a) != Target(users, backups, b) {
      var i :| 0 <= i < |rows| && rows[i] == a;
      var j :| 0 <= j < |rows| && rows[j] == b;
      assert found[i] != found[j];
    }
  }

  lemma RestoreNext(rows: seq<Id>, i: nat, users: Emails, backups: map<Id, Backup>, canonical: Canonical)
    requires Lists(rows, users) && i < |rows| && rows[i] in users
    requires Unique(users) && Unique(Restored(users, backups)) && Idempotent(canonical) && Faithful(backups, canonical)
    ensures var before, after := RestoredUpTo(users, backups, rows, i), RestoredUpTo(users, backups, rows, i + 1);
            && before.Keys == users.Keys
            && if rows[i] in backups && users[rows[i]] == backups[rows[i]].canonical then
                 && after == before[rows[i] := backups[rows[i]].original]
                 && forall other :: other in users && other != rows[i] ==> before[other] != backups[rows[i]].original
               else
                 after == before
  {
    hide Lists, Unique, Restored, Idempotent, Faithful, Target, RestoredUpTo;
    RestoredStep(rows, i, users, backups);
    if rows[i] in backups && users[rows[i]] == backups[rows[i]].canonical {
      forall other | other in users && other != rows[i]
        ensures RestoredUpTo(users, backups, rows, i)[other] != backups[rows[i]].original
      {
        RestoredNeverClashes(users, backups, canonical, rows, i, other);
      }
    }
  }

  lemma RestoredStep(rows: seq<Id>, i: nat, users: Emails, backups: map<Id, Backup>)
    requires i < |rows| && rows[i] in users
    ensures RestoredUpTo(users, backups, rows, i).Keys == users.Keys
    ensures RestoredUpTo(users, backups, rows, i + 1)
            == RestoredUpTo(users, backups, rows, i)[rows[i] := Target(users, backups, rows[i])]
    ensures if rows[i] in backups && users[rows[i]] == backups[rows[i]].canonical then
              Target(users, backups, rows[i]) == backups[rows[i]].original
            else
              RestoredUpTo(users, backups, rows, i + 1) == RestoredUpTo(users, backups, rows, i)
  {
    assert rows[..i + 1] == rows[..i] + [rows[i]];
  }

  lemma AllRestored(rows: seq<Id>, users: Emails, backups: map<Id, Backup>)
    requires Lists(rows, users)
    ensures RestoredUpTo(users, backups, rows, |rows|) == Restored(users, backups)
  {
    assert rows[..|rows|] == rows;
  }

  /** The two tables; the precondition of a statement is the constraint the database enforces. */
  class Database {
    var users: Emails
    var backups: Option<map<Id, Backup>>

    method UpdateEmail(id: Id, email: string)
      requires id in users && forall other :: other in users && other != id ==> users[other] != email
      modifies this`users
      ensures users == old(users)[id := email]
    {
      users := users[id := email];
    }

    method InsertBackup(id: Id, backup: Backup)
      requires backups.Some? && id !in backups.value
      modifies this`backups
      ensures backups == Some(old(backups).value[id := backup])
    {
      backups := Some(backups.value[id := backup]);
    }

    /** The first loop of the upgrade: nothing is written yet. */
    method Inspect(rows: seq<Id>, canonical: Canonical) returns (rejection: Option<Rejection>, changed: seq<Change>)
      requires Lists(rows, users)
      ensures rejection.None? <==> Normalizable(users, canonical)
      ensures rejection == Some(RejectedAddress) ==> exists id :: id in users && canonical(users[id]).None?
      ensures rejection == Some(Collision) ==> exists a, b :: Collide(users, canonical, a, b)
      ensures rejection.None? ==> Recorded(changed, rows, users, canonical)
    {
      hide Scanned, Lists, Recorded, AllDiffer, Normalizable, Collide;
      var seen: set<string> := {};
      ghost var found: seq<string> := [];
      changed := [];
      NothingScanned(rows, users, canonical);
      for i := 0 to |rows|
        invariant Scanned(found, rows[..i], users, canonical) && AllDiffer(found, seen)
        invariant Recorded(changed, rows[..i], users, canonical)
      {
        ListedRow(rows, users, i);
        var email := users[rows[i]];
        if canonical(email).None? {
          NotNormalizable(users, canonical, rows[i]);
          return Some(RejectedAddress), changed;
        }
        if canonical(email).value in seen {
          ScanCollides(found, seen, rows, i, users, canonical);
          return Some(Collision), changed;
        }
        RecordNext(changed, rows, i, users, canonical);
        ScanNext(found, seen, rows, i, users, canonical);
        found := found + [canonical(email).value];
        seen := seen + {canonical(email).value};
        if canonical(email).value != email {
          changed := changed + [(rows[i], Backup(email, canonical(email).value))];
        }
      }
      assert rows[..|rows|] == rows;
      AllScanned(found, seen, rows, users, canonical);
      rejection := None;
    }

    /** Aborts before writing anything, or writes every backup and canonical address, no UPDATE
        ever meeting the UNIQUE constraint and no INSERT the primary key. */
    method NormalizeIdentities(rows: seq<Id>, canonical: Canonical) returns (rejection: Option<Rejection>)
      requires Lists(rows, users) && backups.None? && Idempotent(canonical)
      modifies this
      ensures rejection.None? <==> Normalizable(old(users), canonical)
      ensures rejection.Some? ==> users == old(users) && backups.None?
      ensures rejection.None? ==>
                users == Normalized(old(users), canonical) && backups == Some(BackedUp(old(users), canonical))
    {
      hide Normalizable, Recorded, Lists, Ids, NormalizedUpTo, BackedUpTo, Idempotent, Normalized, BackedUp;
      var changed: seq<Change>;
      rejection, changed := Inspect(rows, canonical);
      if rejection.Some? {
        return;
      }
      NothingWritten(users, canonical);
      backups := Some(map[]);
      assert changed[..0] == [];
      for i := 0 to |changed|
        invariant users == NormalizedUpTo(old(users), canonical, Ids(changed[..i]))
        invariant backups == Some(BackedUpTo(old(users), canonical, Ids(changed[..i])))
      {
        WriteNext(changed, rows, i, old(users), canonical);
        InsertBackup(changed[i].0, changed[i].1);
        UpdateEmail(changed[i].0, changed[i].1.canonical);
      }
      assert changed[..|changed|] == changed;
      AllWritten(changed, rows, old(users), canonical);
    }

    /** Aborts before writing anything, or rewrites the addresses that are still canonical, again
        without ever meeting the UNIQUE constraint. */
    method RestoreIdentities(rows: seq<Id>, ghost canonical: Canonical) returns (rejection: Option<Rejection>)
      requires Lists(rows, users) && Unique(users) && backups.Some?
      requires Idempotent(canonical) && Faithful(backups.value, canonical)
      modifies this
      ensures rejection.None? <==> Unique(Restored(old(users), old(backups).value))
      ensures rejection.Some? ==> users == old(users) && backups == old(backups)
      ensures rejection.None? ==> users == Restored(old(users), old(backups).value) && backups.None?
    {
      hide Lists, Unique, AllDiffer, Targets, Restored, RestoredUpTo, Idempotent, Faithful;
      var listed, saved := users, backups.value;
      var seen: set<string> := {};
      ghost var found: seq<string> := [];
      NothingRestored(rows, users, saved);
      for i := 0 to |rows|
        invariant users == listed && backups == Some(saved)
        invariant Targets(found, rows[..i], listed, saved) && AllDiffer(found, seen)
      {
        ListedRow(rows, users, i);
        var target := Target(users, saved, rows[i]);
        if target in seen {
          TargetCollides(found, seen, rows, i, users, saved);
          return Some(Collision);
        }
        TargetNext(found, seen, rows, i, users, saved);
        found := found + [target];
        seen := seen + {target};
      }
      assert rows[..|rows|] == rows;
      AllTargets(found, seen, rows, users, saved);
      for i := 0 to |rows|
        invariant users == RestoredUpTo(listed, saved, rows, i)
      {
        ListedRow(rows, listed, i);
        RestoreNext(rows, i, listed, saved, canonical);
        if rows[i] in saved && listed[rows[i]] == saved[rows[i]].canonical {
          UpdateEmail(rows[i], saved[rows[i]].original);
        }
      }
      AllRestored(rows, listed, saved);
      backups := None;
      rejection := None;
    }
  }

  // ---- The two together ----

  /** An upgrade gives every user the canonical form of the own address and keeps the original of exactly those
      whose address was another. */
  lemma UpgradeIs(users: Emails, canonical: Canonical)
    requires Normalizable(users, canonical)
    ensures var after := Normalized(users, canonical);
            after.Keys == users.Keys && forall id :: id in users ==> canonical(users[id]) == Some(after[id])
    ensures var backups := BackedUp(users, canonical);
            && (forall id :: id in backups <==> id in users && canonical(users[id]) != Some(users[id]))
            && (forall id :: id in backups ==>
                  backups[id].original == users[id] && canonical(users[id]) == Some(backups[id].canonical))
  {}

  /** After an upgrade that does not abort every address is canonical and no two are equal. */
  lemma NormalizedIsCanonical(users: Emails, canonical: Canonical)
    requires Normalizable(users, canonical) && Idempotent(canonical)
    ensures Unique(Normalized(users, canonical)) && Faithful(BackedUp(users, canonical), canonical)
    ensures forall id :: id in users ==>
      canonical(Normalized(users, canonical)[id]) == Some(Normalized(users, canonical)[id])
  {}

  /** What a rollback restores after arbitrary edits, inserts and deletions: a changed user still
      holding the canonical address gets the original back, everyone else keeps the address, and no
      user comes back. */
  lemma RestoredAfterEdits(before: Emails, canonical: Canonical, edited: Emails, id: Id)
    requires Normalizable(before, canonical)
    ensures var after := Restored(edited, BackedUp(before, canonical));
            && after.Keys == edited.Keys
            && (id in edited ==>
                  after[id] == if id in before && edited[id] == Normal(before[id], canonical)
                               then before[id] else edited[id])
  {}

  /** A rollback right after the upgrade never aborts and gives back the original table. */
  lemma RoundTrip(users: Emails, canonical: Canonical)
    requires Unique(users) && Normalizable(users, canonical) && Idempotent(canonical)
    ensures Restored(Normalized(users, canonical), BackedUp(users, canonical)) == users
    ensures Unique(Restored(Normalized(users, canonical), BackedUp(users, canonical)))
  {
    var restored := Restored(Normalized(users, canonical), BackedUp(users, canonical));
    forall id | id in users ensures restored[id] == users[id] {
      RestoredAfterEdits(users, canonical, Normalized(users, canonical), id);
    }
    assert restored == users;
  }

  /** A user edited since the upgrade, or created after it, who now holds the original address of a
      user that is still to be restored. */
  ghost predicate TookOriginal(before: Emails, canonical: Canonical, edited: Emails, a: Id, b: Id) {
    && a in edited && b in edited && a != b && b in before && edited[b] == Normal(before[b], canonical)
    && !(a in before && edited[a] == Normal(before[a], canonical)) && edited[a] == before[b]
  }

  /** A rollback aborts exactly when someone took an original address. */
  lemma RollbackAborts(before: Emails, canonical: Canonical, edited: Emails)
    requires Unique(before) && Unique(edited) && Normalizable(before, canonical)
    ensures !Unique(Restored(edited, BackedUp(before, canonical)))
            <==> exists a, b :: TookOriginal(before, canonical, edited, a, b)
  {
    var after := Restored(edited, BackedUp(before, canonical));
    forall id | id in edited
      ensures after[id] == if id in before && edited[id] == Normal(before[id], canonical)
                            then before[id] else edited[id]
    {
      RestoredAfterEdits(before, canonical, edited, id);
    }
    if a, b :| a in after && b in after && a != b && after[a] == after[b] {
      assert TookOriginal(before, canonical, edited, a, b) || TookOriginal(before, canonical, edited, b, a);
    }
    if a, b :| TookOriginal(before, canonical, edited, a, b) {
      assert after[a] == after[b];
    }
  }
}
