/** PUT as create-or-replace: what it stages, writes and reports, with other transactions committing
    between its existence check and its INSERT ... ON CONFLICT statement. */
module Upsert {
  import opened Wrappers

  type Id = string
  type Columns = map<string, string>

  /** What the rows make each relationship refer to, by public name; a to-one refers to at most one
      resource. A foreign key in another table's rows is just another way to store this. */
  type Links = map<string, set<Id>>

  /** What a model object, a request or a response holds: the same, in an order. */
  type Lists = map<string, seq<Id>>

  datatype Row = Row(columns: Columns, links: Links)

  /** `initial` is what the column defaults of a freshly inserted row make a relationship refer to. */
  datatype Definition = Definition(many: bool, writable: bool, initial: set<Id>)

  /** `listing` is the order in which a loader lists related rows. */
  datatype Schema = Schema(names: seq<string>, defs: map<string, Definition>, defaults: Columns, timestamped: bool,
                           listing: set<Id> -> seq<Id>)

  /** The attributes and exactly those relationships the request provides. */
  datatype Put = Put(attributes: Columns, links: Lists)

  datatype Response = Response(created: bool, columns: Columns, links: Lists)

  function Elements(ids: seq<Id>): set<Id> {
    set id | id in ids
  }

  predicate NoRepeats(ids: seq<Id>) {
    forall i, j :: 0 <= i < j < |ids| ==> ids[i] != ids[j]
  }

  ghost predicate ValidListing(listing: set<Id> -> seq<Id>) {
    forall ids: set<Id> :: Elements(listing(ids)) == ids && NoRepeats(listing(ids))
  }

  ghost predicate ValidSchema(schema: Schema) {
    && (forall name :: name in schema.names <==> name in schema.defs)
    && (forall i, j :: 0 <= i < j < |schema.names| ==> schema.names[i] != schema.names[j])
    && (forall name :: name in schema.defs && schema.defs[name].many ==> schema.defs[name].initial == {})
    && ValidListing(schema.listing)
  }

  predicate ValidRow(schema: Schema, row: Row) {
    row.links.Keys == schema.defs.Keys
  }

  predicate ValidPut(schema: Schema, put: Put) {
    put.links.Keys <= schema.defs.Keys && forall name :: name in put.links ==> NoRepeats(put.links[name])
  }

  // ---- The statement ----

  /** The columns ON CONFLICT DO UPDATE sets. */
  function Updates(schema: Schema, put: Put, now: string): Columns {
    if schema.timestamped && "updated_at" !in put.attributes then put.attributes["updated_at" := now]
    else put.attributes
  }

  function Initial(schema: Schema): Links {
    map name | name in schema.defs :: schema.defs[name].initial
  }

  /** INSERT, or UPDATE when a row is there by now; relationships are not written yet. */
  function Upserted(schema: Schema, put: Put, now: string, row: Option<Row>): Row {
    if row.None? then Row(schema.defaults + put.attributes, Initial(schema))
    else Row(row.value.columns + Updates(schema, put, now), row.value.links)
  }

  /** What a flush makes of one relationship: nothing without a change against the committed value,
      else the foreign key is overwritten, or the association rows of the difference are written. */
  function Flushed(many: bool, stored: set<Id>, committed: set<Id>, current: set<Id>): set<Id> {
    if current == committed then stored
    else if many then stored - (committed - current) + (current - committed)
    else current
  }

  // ---- What a PUT reports and leaves behind, relationship by relationship ----

  /** `before` is the row the existence check saw and locked, `at` the row the statement met. */
  function Reported(schema: Schema, put: Put, before: Option<Row>, at: Option<Row>, name: string): seq<Id>
    requires name in schema.defs
    requires before.Some? ==> ValidRow(schema, before.value)
    requires at.Some? ==> ValidRow(schema, at.value)
  {
    if name in put.links then put.links[name]
    else if before.Some? then (if schema.defs[name].writable then [] else schema.listing(before.value.links[name]))
    else if at.Some? then schema.listing(at.value.links[name])
    else schema.listing(schema.defs[name].initial)
  }

  /** Requesting null on a to-one whose column has a default: the staged null is no change, so the
      flush leaves the default in place. */
  predicate KeepsDefault(schema: Schema, put: Put, before: Option<Row>, at: Option<Row>, name: string)
    requires name in schema.defs
  {
    before.None? && at.None? && name in put.links && put.links[name] == [] && schema.defs[name].initial != {}
  }

  function Left(schema: Schema, put: Put, before: Option<Row>, at: Option<Row>, name: string): set<Id>
    requires name in schema.defs
    requires before.Some? ==> ValidRow(schema, before.value)
    requires at.Some? ==> ValidRow(schema, at.value)
  {
    if KeepsDefault(schema, put, before, at, name) then schema.defs[name].initial
    else Elements(Reported(schema, put, before, at, name))
  }

  predicate Sane(schema: Schema, before: Option<Row>, at: Option<Row>) {
    && (before.Some? ==> ValidRow(schema, before.value) && at == before)
    && (at.Some? ==> ValidRow(schema, at.value))
  }

  function ReportedLinks(schema: Schema, put: Put, before: Option<Row>, at: Option<Row>): Lists
    requires Sane(schema, before, at)
  {
    map name | name in schema.defs :: Reported(schema, put, before, at, name)
  }

  function LeftLinks(schema: Schema, put: Put, before: Option<Row>, at: Option<Row>): Links
    requires Sane(schema, before, at)
  {
    map name | name in schema.defs :: Left(schema, put, before, at, name)
  }

  function Respond(schema: Schema, put: Put, now: string, before: Option<Row>, at: Option<Row>): Response
    requires Sane(schema, before, at)
  {
    Response(before.None?, Upserted(schema, put, now, at).columns, ReportedLinks(schema, put, before, at))
  }

  function Commit(schema: Schema, put: Put, now: string, before: Option<Row>, at: Option<Row>): Row
    requires Sane(schema, before, at)
  {
    Row(Upserted(schema, put, now, at).columns, LeftLinks(schema, put, before, at))
  }

  // ---- Loops over the declared relationships ----

  /** `links` with the overrides of the relationships visited so far. */
  function Mixed<T>(links: map<string, T>, overrides: map<string, T>, visited: seq<string>): map<string, T> {
    map name | name in links :: if name in visited && name in overrides then overrides[name] else links[name]
  }

  lemma MixNone<T>(links: map<string, T>, overrides: map<string, T>)
    ensures Mixed(links, overrides, []) == links
  {}

  lemma MixNext<T>(links: map<string, T>, overrides: map<string, T>, names: seq<string>, i: nat)
    requires i < |names| && names[i] in links
    ensures Mixed(links, overrides, names[..i + 1])
            == if names[i] in overrides then Mixed(links, overrides, names[..i])[names[i] := overrides[names[i]]]
               else Mixed(links, overrides, names[..i])
  {
    assert names[..i + 1] == names[..i] + [names[i]];
  }

  lemma MixAll<T>(schema: Schema, links: map<string, T>, overrides: map<string, T>)
    requires ValidSchema(schema) && links.Keys == schema.defs.Keys && overrides.Keys <= schema.defs.Keys
    ensures Mixed(links, overrides, schema.names[..|schema.names|]) == links + overrides
    ensures overrides.Keys == schema.defs.Keys ==> links + overrides == overrides
  {
    assert schema.names[..|schema.names|] == schema.names;
    assert forall name :: name in links ==> name in schema.names;
  }

  function Empty(schema: Schema): Lists {
    map name | name in schema.defs :: []
  }

  /** Rows as a loader lists them. */
  function Listed(schema: Schema, links: Links): Lists {
    map name | name in links :: schema.listing(links[name])
  }

  /** What staging sets: the provided relationships and, on the replace path, a reset of the omitted
      writable ones. */
  function Overrides(schema: Schema, put: Put, created: bool): Lists {
    map name | name in schema.defs && (name in put.links || (!created && schema.defs[name].writable))
      :: if name in put.links then put.links[name] else []
  }

  function StagedLinks(schema: Schema, put: Put, before: Option<Row>): Lists {
    (if before.None? then Empty(schema) else Listed(schema, before.value.links)) + Overrides(schema, put, before.None?)
  }

  /** Committed values of a created model: empty under a value to carry over, else what the returned
      row refers to. */
  function Materialized(schema: Schema, reapplied: Lists): Lists {
    map name | name in schema.defs :: if name in reapplied then [] else schema.listing(schema.defs[name].initial)
  }

  function AllFlushed(schema: Schema, stored: Links, committed: Lists, current: Lists): Links
    requires stored.Keys == committed.Keys == current.Keys == schema.defs.Keys
  {
    map name | name in schema.defs ::
      Flushed(schema.defs[name].many, stored[name], Elements(committed[name]), Elements(current[name]))
  }

  /** The values a created model has to carry over: provided, changed or not empty. */
  function Reapplied(schema: Schema, put: Put, committed: Lists, current: Lists): Lists
    requires committed.Keys == current.Keys == schema.defs.Keys
  {
    map name | name in schema.defs && (name in put.links || current[name] != committed[name] || current[name] != [])
      :: current[name]
  }

  // ---- The action itself ----

  /** One PUT transaction: the staged model object, with the committed value of every relationship
      beside the current one, and the table row it works on. */
  class Transaction {
    const schema: Schema
    var row: Option<Row>
    var created: bool
    var columns: Columns
    var committed: Lists
    var current: Lists

    constructor (schema: Schema, row: Option<Row>)
      ensures this.schema == schema && this.row == row
    {
      this.schema, this.row := schema, row;
      created, columns, committed, current := false, map[], map[], map[];
    }

    method SetAttribute(name: string, ids: seq<Id>)
      modifies this`current
      ensures current == old(current)[name := ids]
    {
      current := current[name := ids];
    }

    method SetCommitted(name: string, ids: seq<Id>)
      modifies this`current, this`committed
      ensures current == old(current)[name := ids] && committed == old(committed)[name := ids]
    {
      current, committed := current[name := ids], committed[name := ids];
    }

    ghost predicate Loaded()
      reads this
    {
      ValidSchema(schema) && committed.Keys == current.Keys == schema.defs.Keys
    }

    /** The model as Begin leaves it. */
    ghost predicate Staged(put: Put, before: Option<Row>)
      reads this
      requires before.Some? ==> ValidRow(schema, before.value)
    {
      && Loaded() && created == before.None?
      && current == StagedLinks(schema, put, before)
      && committed == if created then current else Listed(schema, before.value.links)
    }

    /** Check, lock and stage. */
    method Begin(put: Put)
      requires ValidSchema(schema) && (row.Some? ==> ValidRow(schema, row.value))
      modifies this`created, this`columns, this`committed, this`current
      ensures Staged(put, row)
    {
      hide Mixed, ValidSchema;
      created := row.None?;
      if created {
        columns, committed, current := put.attributes, Empty(schema), Empty(schema);
      } else {
        columns := row.value.columns + put.attributes;
        committed, current := Listed(schema, row.value.links), Listed(schema, row.value.links);
      }
      ghost var overrides := Overrides(schema, put, created);
      MixNone(current, overrides);
      ghost var loaded := current;
      for i := 0 to |schema.names|
        invariant created == row.None? && current == Mixed(loaded, overrides, schema.names[..i])
        invariant committed == if created then current else loaded
      {
        var name := schema.names[i];
        Declared(schema, i);
        MixNext(loaded, overrides, schema.names, i);
        if name in put.links {
          if created { SetCommitted(name, put.links[name]); } else { SetAttribute(name, put.links[name]); }
        } else if !created && schema.defs[name].writable {
          SetAttribute(name, []);
        }
      }
      MixAll(schema, loaded, overrides);
    }

    /** Every declared relationship of a freshly inserted row gets a committed value. */
    method MaterializeCreated(reapplied: Lists)
      requires Loaded() && row.Some? && row.value.links == Initial(schema) && reapplied.Keys <= schema.defs.Keys
      modifies this`committed, this`current
      ensures Loaded() && committed == Materialized(schema, reapplied)
      ensures current == Materialized(schema, reapplied) + reapplied
    {
      hide Mixed, ValidSchema, Materialized, Initial;
      MaterializedKeys(schema, reapplied);
      ghost var wasCommitted, wasCurrent := committed, current;
      ghost var target, final := Materialized(schema, reapplied), Materialized(schema, reapplied) + reapplied;
      MixNone(committed, target);
      MixNone(current, final);
      for i := 0 to |schema.names|
        invariant committed == Mixed(wasCommitted, target, schema.names[..i])
        invariant current == Mixed(wasCurrent, final, schema.names[..i])
      {
        var name := schema.names[i];
        Declared(schema, i);
        MixNext(wasCommitted, target, schema.names, i);
        MixNext(wasCurrent, final, schema.names, i);
        MaterializedAt(schema, reapplied, name);
        if name in reapplied {
          ghost var was := current;
          SetCommitted(name, []);
          SetAttribute(name, reapplied[name]);
          assert current == was[name := reapplied[name]];
        } else if schema.defs[name].many {
          SetCommitted(name, []);
        } else {
          SetCommitted(name, schema.listing(row.value.links[name]));
        }
      }
      MixAll(schema, wasCommitted, target);
      MixAll(schema, wasCurrent, final);
    }

    /** Writes every relationship that differs from its committed value. */
    method Flush()
      requires Loaded() && row.Some? && ValidRow(schema, row.value)
      modifies this`row
      ensures row == Some(Row(old(row).value.columns, AllFlushed(schema, old(row).value.links, committed, current)))
    {
      hide Mixed, ValidSchema, Flushed;
      ghost var stored, target := row.value.links, AllFlushed(schema, row.value.links, committed, current);
      MixNone(stored, target);
      for i := 0 to |schema.names|
        invariant row == Some(Row(old(row).value.columns, Mixed(stored, target, schema.names[..i])))
      {
        var name := schema.names[i];
        Declared(schema, i);
        MixNext(stored, target, schema.names, i);
        MixKeeps(stored, target, schema.names, i, schema);
        var flushed := Flushed(schema.defs[name].many, row.value.links[name],
                               Elements(committed[name]), Elements(current[name]));
        row := Some(Row(row.value.columns, row.value.links[name := flushed]));
      }
      MixAll(schema, stored, target);
    }

    /** Re-applies the staged values on the row read back after losing a race. */
    method Reapply(reapplied: Lists)
      requires Loaded() && reapplied.Keys <= schema.defs.Keys
      modifies this`current
      ensures current == old(current) + reapplied
    {
      hide Mixed, ValidSchema;
      ghost var read := current;
      MixNone(read, reapplied);
      for i := 0 to |schema.names|
        invariant current == Mixed(read, reapplied, schema.names[..i])
      {
        Declared(schema, i);
        MixNext(read, reapplied, schema.names, i);
        if schema.names[i] in reapplied {
          SetAttribute(schema.names[i], reapplied[schema.names[i]]);
        }
      }
      MixAll(schema, read, reapplied);
    }

    /** The statement and all that follows it, in each of its three branches. */
    method Finish(put: Put, now: string, ghost before: Option<Row>) returns (response: Response)
      requires ValidPut(schema, put) && Sane(schema, before, row) && Staged(put, before)
      modifies this
      ensures response == Respond(schema, put, now, before, old(row))
      ensures row == Some(Commit(schema, put, now, before, old(row)))
    {
      hide ReportedLinks, LeftLinks, AllFlushed, Materialized, StagedLinks, ValidSchema;
      var reapplied := if created then Reapplied(schema, put, committed, current) else map[];
      var inserted := row.None?;
      row := Some(Upserted(schema, put, now, row));
      if created && !inserted {
        columns := row.value.columns;
        committed, current := Listed(schema, row.value.links), Listed(schema, row.value.links);
        Reapply(reapplied);
      } else {
        columns := row.value.columns;
        if created {
          MaterializeCreated(reapplied);
        }
      }
      ghost var stored := row.value.links;
      Flush();
      response := Response(created, columns, current);
      Branches(schema, put, now, before, old(row), stored, committed, current);
    }
  }

  lemma Declared(schema: Schema, i: nat)
    requires ValidSchema(schema) && i < |schema.names|
    ensures schema.names[i] in schema.defs
  {}

  lemma MixKeeps<T>(links: map<string, T>, overrides: map<string, T>, names: seq<string>, i: nat, schema: Schema)
    requires ValidSchema(schema) && names == schema.names && i < |names| && names[i] in links
    ensures names[i] in Mixed(links, overrides, names[..i])
    ensures Mixed(links, overrides, names[..i])[names[i]] == links[names[i]]
  {}

  lemma MaterializedKeys(schema: Schema, reapplied: Lists)
    ensures Materialized(schema, reapplied).Keys == schema.defs.Keys
  {}

  lemma MaterializedAt(schema: Schema, reapplied: Lists, name: string)
    requires ValidSchema(schema) && name in schema.defs && reapplied.Keys <= schema.defs.Keys
    ensures name in Materialized(schema, reapplied) && name in Initial(schema)
    ensures name in reapplied ==> Materialized(schema, reapplied)[name] == []
    ensures name !in reapplied ==> Materialized(schema, reapplied)[name] == schema.listing(Initial(schema)[name])
    ensures schema.defs[name].many ==> schema.listing(Initial(schema)[name]) == []
    ensures Initial(schema)[name] == schema.defs[name].initial
  {
    NothingListed(schema);
  }

  lemma NothingListed(schema: Schema)
    requires ValidSchema(schema)
    ensures schema.listing({}) == []
  {
    assert Elements(schema.listing({})) == {};
    NoElements(schema.listing({}));
  }

  lemma NoElements(ids: seq<Id>)
    ensures Elements(ids) == {} <==> ids == []
  {
    assert ids != [] ==> ids[0] in Elements(ids);
  }

  lemma StagedAt(schema: Schema, put: Put, before: Option<Row>, name: string)
    requires name in schema.defs && (before.Some? ==> ValidRow(schema, before.value))
    ensures name in StagedLinks(schema, put, before)
    ensures StagedLinks(schema, put, before)[name]
            == if name in put.links then put.links[name]
               else if before.Some? && !schema.defs[name].writable then schema.listing(before.value.links[name])
               else []
  {
    assert name in Overrides(schema, put, before.None?)
        <==> name in put.links || (before.Some? && schema.defs[name].writable);
  }

  /** What the three branches have done to the staged model by the time it is flushed. */
  ghost predicate Branch(schema: Schema, put: Put, before: Option<Row>, stored: Links, committed: Lists, current: Lists,
                         at: Option<Row>)
    requires Sane(schema, before, at)
  {
    var staged := StagedLinks(schema, put, before);
    && staged.Keys == schema.defs.Keys
    && var reapplied := Reapplied(schema, put, staged, staged);
       if before.Some? then committed == Listed(schema, before.value.links) && current == staged
       else if at.Some? then committed == Listed(schema, stored) && current == Listed(schema, stored) + reapplied
       else committed == Materialized(schema, reapplied) && current == Materialized(schema, reapplied) + reapplied
  }

  lemma BranchAt(schema: Schema, put: Put, now: string, before: Option<Row>, at: Option<Row>,
                 stored: Links, committed: Lists, current: Lists, name: string)
    requires ValidSchema(schema) && Sane(schema, before, at) && name in schema.defs
    requires stored == Upserted(schema, put, now, at).links
    requires stored.Keys == committed.Keys == current.Keys == schema.defs.Keys
    requires Branch(schema, put, before, stored, committed, current, at)
    ensures current[name] == Reported(schema, put, before, at, name)
    ensures Flushed(schema.defs[name].many, stored[name], Elements(committed[name]), Elements(current[name]))
            == Left(schema, put, before, at, name)
  {
    hide StagedLinks, Materialized, Initial, Flushed, ValidSchema;
    StagedAt(schema, put, before, name);
    var staged := StagedLinks(schema, put, before);
    var reapplied := Reapplied(schema, put, staged, staged);
    assert name in reapplied <==> name in put.links || staged[name] != [];
    MaterializedAt(schema, reapplied, name);
    ListedAt(schema, stored, name);
    NoElements(current[name]);
    assert schema.listing(schema.defs[name].initial) == [] <==> schema.defs[name].initial == {} by {
      ListedAt(schema, Initial(schema), name);
      NothingListed(schema);
    }
    FlushedIs(schema.defs[name].many, stored[name], Elements(committed[name]), Elements(current[name]));
  }

  lemma ListedAt(schema: Schema, links: Links, name: string)
    requires ValidSchema(schema) && name in links
    ensures Elements(schema.listing(links[name])) == links[name]
  {}

  /** A flush leaves the current value when what it compares against is what is stored. */
  lemma FlushedIs(many: bool, stored: set<Id>, committed: set<Id>, current: set<Id>)
    ensures stored == committed ==> Flushed(many, stored, committed, current) == current
    ensures !many && current != committed ==> Flushed(many, stored, committed, current) == current
    ensures current == committed ==> Flushed(many, stored, committed, current) == stored
  {}

  /** In each branch the flushed rows and the staged values are what the PUT is specified to leave
      and report. */
  lemma Branches(schema: Schema, put: Put, now: string, before: Option<Row>, at: Option<Row>,
                 stored: Links, committed: Lists, current: Lists)
    requires ValidSchema(schema) && Sane(schema, before, at)
    requires stored == Upserted(schema, put, now, at).links
    requires stored.Keys == committed.Keys == current.Keys == schema.defs.Keys
    requires Branch(schema, put, before, stored, committed, current, at)
    ensures current == ReportedLinks(schema, put, before, at)
    ensures AllFlushed(schema, stored, committed, current) == LeftLinks(schema, put, before, at)
  {
    hide Branch, Upserted, Reported, Left, Flushed, ValidSchema;
    forall name | name in schema.defs
      ensures current[name] == Reported(schema, put, before, at, name)
      ensures Flushed(schema.defs[name].many, stored[name], Elements(committed[name]), Elements(current[name]))
              == Left(schema, put, before, at, name)
    {
      BranchAt(schema, put, now, before, at, stored, committed, current, name);
    }
  }
}
