/** PUT against every schedule of rival inserts, deletions, attribute updates, relationship mutations
    and other PUTs on the same resource. */
module UpsertRuns {
  import opened Wrappers
  import opened Upsert

  datatype Mutation = Add | Replace | Remove

  /** A PUT past its existence check: it holds the advisory lock and, when the row existed, the row
      lock. */
  datatype Held = Held(put: Put, before: Option<Row>)

  datatype State = State(row: Option<Row>, held: Option<Held>)

  /** Committed transactions of others, and the two halves of a PUT. */
  datatype Event =
    | Insert(inserted: Row)
    | Destroy
    | Patch(attributes: Columns)
    | Mutate(name: string, mutation: Mutation, ids: set<Id>)
    | Begin(put: Put)
    | Finish(now: string)

  function Mutated(row: Row, name: string, mutation: Mutation, ids: set<Id>): Row
    requires name in row.links
  {
    var current := row.links[name];
    Row(row.columns, row.links[name :=
      match mutation
      case Add => current + ids
      case Replace => ids
      case Remove => current - ids])
  }

  predicate RowLocked(s: State) {
    s.held.Some? && s.held.value.before.Some?
  }

  /** What the locks let commit: a second PUT waits for the advisory lock, whatever needs the row
      waits for the row lock, and an insert needs the key to be free. */
  predicate Enabled(schema: Schema, s: State, event: Event) {
    match event
    case Insert(row) => s.row.None? && ValidRow(schema, row)
    case Destroy => s.row.Some? && !RowLocked(s)
    case Patch(_) => s.row.Some? && !RowLocked(s)
    case Mutate(name, _, _) => s.row.Some? && !RowLocked(s) && name in schema.defs
    case Begin(put) => s.held.None? && ValidPut(schema, put)
    case Finish(_) => s.held.Some?
  }

  predicate StateInv(schema: Schema, s: State) {
    && (s.row.Some? ==> ValidRow(schema, s.row.value))
    && (s.held.Some? ==> ValidPut(schema, s.held.value.put) && Sane(schema, s.held.value.before, s.row))
  }

  function Step(schema: Schema, s: State, event: Event): State
    requires StateInv(schema, s) && Enabled(schema, s, event)
  {
    match event
    case Insert(row) => s.(row := Some(row))
    case Destroy => s.(row := None)
    case Patch(attributes) => s.(row := Some(Row(s.row.value.columns + attributes, s.row.value.links)))
    case Mutate(name, mutation, ids) => s.(row := Some(Mutated(s.row.value, name, mutation, ids)))
    case Begin(put) => s.(held := Some(Held(put, s.row)))
    case Finish(now) =>
      State(Some(Commit(schema, s.held.value.put, now, s.held.value.before, s.row)), None)
  }

  lemma StepInv(schema: Schema, s: State, event: Event)
    requires StateInv(schema, s) && Enabled(schema, s, event)
    ensures StateInv(schema, Step(schema, s, event))
  {}

  ghost predicate Runs(schema: Schema, s: State, events: seq<Event>)
    requires StateInv(schema, s)
    decreases |events|
  {
    events != [] ==>
      Enabled(schema, s, events[0])
      && (StepInv(schema, s, events[0]); Runs(schema, Step(schema, s, events[0]), events[1..]))
  }

  ghost function After(schema: Schema, s: State, events: seq<Event>): (after: State)
    requires StateInv(schema, s) && Runs(schema, s, events)
    ensures StateInv(schema, after)
    decreases |events|
  {
    if events == [] then s
    else (StepInv(schema, s, events[0]); After(schema, Step(schema, s, events[0]), events[1..]))
  }

  // ---- What a response promises ----

  /** The linkage of a document: the stored rows, each once, in some order. */
  predicate Describes(listed: Lists, links: Links) {
    && listed.Keys == links.Keys
    && forall name :: name in listed ==> Elements(listed[name]) == links[name] && NoRepeats(listed[name])
  }

  /** The document describes the committed row: its columns and all its linkage. */
  predicate Truthful(response: Response, row: Row) {
    response.columns == row.columns && Describes(response.links, row.links)
  }

  /** Null requested for a to-one whose column has a default. */
  ghost predicate NullOverDefault(schema: Schema, put: Put) {
    exists name :: name in schema.defs && name in put.links && put.links[name] == [] && schema.defs[name].initial != {}
  }

  /** The row is the requested one, not a mixture: every omitted writable relationship is back to
      what a freshly inserted row has, or empty. */
  ghost predicate FullyReplaced(schema: Schema, put: Put, row: Row) {
    && (forall name :: name in put.attributes ==> name in row.columns && row.columns[name] == put.attributes[name])
    && (forall name :: name in put.links && name in schema.defs ==>
          name in row.links && row.links[name] == Elements(put.links[name]))
    && (forall name :: name in schema.defs && name !in put.links && schema.defs[name].writable ==>
          name in row.links && (row.links[name] == {} || row.links[name] == schema.defs[name].initial))
  }

  /** The insert lost: another transaction's row appeared after the check. */
  predicate Conflicted(before: Option<Row>, at: Option<Row>) {
    before.None? && at.Some?
  }

  /** The rival set none of the writable relationships the request omits. */
  ghost predicate RivalLeftDefaults(schema: Schema, put: Put, at: Option<Row>) {
    at.Some? ==> forall name :: name in schema.defs && name !in put.links && schema.defs[name].writable ==>
      name in at.value.links && (at.value.links[name] == {} || at.value.links[name] == schema.defs[name].initial)
  }

  lemma ReportedOnce(schema: Schema, put: Put, before: Option<Row>, at: Option<Row>, name: string)
    requires ValidSchema(schema) && ValidPut(schema, put) && Sane(schema, before, at) && name in schema.defs
    ensures NoRepeats(Reported(schema, put, before, at, name))
  {}

  lemma LeftIsReported(schema: Schema, put: Put, before: Option<Row>, at: Option<Row>)
    requires ValidSchema(schema) && ValidPut(schema, put) && Sane(schema, before, at)
    ensures Describes(ReportedLinks(schema, put, before, at), LeftLinks(schema, put, before, at))
            <==> before.Some? || at.Some? || !NullOverDefault(schema, put)
  {
    var left, reported := LeftLinks(schema, put, before, at), ReportedLinks(schema, put, before, at);
    if before.None? && at.None? && NullOverDefault(schema, put) {
      var name :| name in schema.defs && name in put.links && put.links[name] == [] && schema.defs[name].initial != {};
      assert reported[name] == [] && left[name] == schema.defs[name].initial;
    } else {
      forall name | name in schema.defs ensures Elements(reported[name]) == left[name] && NoRepeats(reported[name]) {
        ReportedOnce(schema, put, before, at, name);
      }
    }
  }

  /** In every schedule, the response of a PUT describes exactly what its transaction commits, unless
      it really inserted and was asked to null a to-one whose column has a default. The status says
      what the check saw, not what the statement did. */
  lemma PutTellsTheTruth(schema: Schema, s: State, events: seq<Event>, now: string)
    requires ValidSchema(schema)
    requires StateInv(schema, s) && Runs(schema, s, events) && After(schema, s, events).held.Some?
    ensures
      var end := After(schema, s, events);
      var held := end.held.value;
      var response := Respond(schema, held.put, now, held.before, end.row);
      var committed := Step(schema, end, Finish(now)).row.value;
      && (Truthful(response, committed)
          <==> held.before.Some? || end.row.Some? || !NullOverDefault(schema, held.put))
      && (response.created <==> end.row.None? || Conflicted(held.before, end.row))
  {
    var end := After(schema, s, events);
    LeftIsReported(schema, end.held.value.put, end.held.value.before, end.row);
  }

  /** In every schedule, a PUT leaves a full replacement, except when it lost the insert to a rival
      that set a writable relationship the request omits, or kept a default over null. */
  lemma PutReplacesFully(schema: Schema, s: State, events: seq<Event>, now: string)
    requires ValidSchema(schema)
    requires StateInv(schema, s) && Runs(schema, s, events) && After(schema, s, events).held.Some?
    ensures
      var end := After(schema, s, events);
      var held := end.held.value;
      FullyReplaced(schema, held.put, Step(schema, end, Finish(now)).row.value)
      <==> if held.before.Some? then true
           else if end.row.Some? then RivalLeftDefaults(schema, held.put, end.row)
           else !NullOverDefault(schema, held.put)
  {
    var end := After(schema, s, events);
    var held := end.held.value;
    hide After, Runs, Upserted, LeftLinks, ValidSchema, NullOverDefault, RivalLeftDefaults, FullyReplaced;
    CommitReplaces(schema, held.put, now, held.before, end.row);
  }

  /** What one relationship is left with, as full replacement asks for it. */
  ghost predicate ReplacedAt(schema: Schema, put: Put, before: Option<Row>, at: Option<Row>, name: string)
    requires Sane(schema, before, at) && name in schema.defs
  {
    var left := Left(schema, put, before, at, name);
    if name in put.links then left == Elements(put.links[name])
    else schema.defs[name].writable ==> left == {} || left == schema.defs[name].initial
  }

  lemma ReplacedExactly(schema: Schema, put: Put, before: Option<Row>, at: Option<Row>, name: string)
    requires ValidSchema(schema) && Sane(schema, before, at) && name in schema.defs
    ensures ReplacedAt(schema, put, before, at, name)
            <==> if name in put.links then !KeepsDefault(schema, put, before, at, name)
                 else schema.defs[name].writable && before.None? && at.Some? ==>
                   at.value.links[name] == {} || at.value.links[name] == schema.defs[name].initial
  {
    if name in put.links { NoElements(put.links[name]); }
  }

  lemma CommitReplaces(schema: Schema, put: Put, now: string, before: Option<Row>, at: Option<Row>)
    requires ValidSchema(schema) && ValidPut(schema, put) && Sane(schema, before, at)
    ensures FullyReplaced(schema, put, Commit(schema, put, now, before, at))
            <==> if before.Some? then true
                 else if at.Some? then RivalLeftDefaults(schema, put, at)
                 else !NullOverDefault(schema, put)
  {
    Requested(schema, put, now, at);
    ReplacedLinks(schema, put, now, before, at);
    forall name | name in schema.defs
      ensures ReplacedAt(schema, put, before, at, name)
              <==> if name in put.links then !KeepsDefault(schema, put, before, at, name)
                   else schema.defs[name].writable && before.None? && at.Some? ==>
                     at.value.links[name] == {} || at.value.links[name] == schema.defs[name].initial
    {
      ReplacedExactly(schema, put, before, at, name);
    }
    hide ReplacedAt, Upserted, Left, ValidSchema, FullyReplaced, Commit;
  }

  lemma ReplacedLinks(schema: Schema, put: Put, now: string, before: Option<Row>, at: Option<Row>)
    requires Sane(schema, before, at) && ValidPut(schema, put)
    ensures FullyReplaced(schema, put, Commit(schema, put, now, before, at))
            <==> forall name :: name in schema.defs ==> ReplacedAt(schema, put, before, at, name)
  {
    Requested(schema, put, now, at);
    hide Upserted, Left;
    var row := Commit(schema, put, now, before, at);
    assert forall name :: name in schema.defs ==> row.links[name] == Left(schema, put, before, at, name);
  }

  lemma Requested(schema: Schema, put: Put, now: string, at: Option<Row>)
    ensures forall name :: name in put.attributes ==>
      var columns := Upserted(schema, put, now, at).columns;
      name in columns && columns[name] == put.attributes[name]
  {}

  // ---- What a PUT commits, name by name ----

  /** Every column of the committed row: the request's where it gives one; else the time of the statement for
      the timestamp of a row that was there; else what the row had, or the column default of a new row. */
  ghost predicate ColumnsAre(schema: Schema, put: Put, met: Option<Row>, now: string, columns: Columns) {
    forall column: string ::
      if column in put.attributes then column in columns && columns[column] == put.attributes[column]
      else if met.Some? && schema.timestamped && column == "updated_at" then column in columns && columns[column] == now
      else
        var source := if met.Some? then met.value.columns else schema.defaults;
        (column in columns <==> column in source) && (column in source ==> columns[column] == source[column])
  }

  /** Every relationship of the committed row: the request's where it gives one, except null over a column
      default of a new row; nothing where the check saw a row and a writable one is omitted; else what the
      row that was met has, or a new row's initial value. */
  ghost predicate LinksAre(schema: Schema, put: Put, before: Option<Row>, met: Option<Row>, links: Links) {
    && links.Keys == schema.defs.Keys
    && forall name :: name in schema.defs ==>
         var initial := schema.defs[name].initial;
         if name in put.links then
           if put.links[name] == [] && before.None? && met.None? then links[name] == initial
           else forall id :: id in links[name] <==> id in put.links[name]
         else if before.Some? && schema.defs[name].writable then links[name] == {}
         else links[name] == if met.None? then initial
                             else if name in met.value.links then met.value.links[name] else {}
  }

  /** The response lists what was requested in the order of the request. */
  predicate Echoes(put: Put, listed: Lists) {
    forall name :: name in put.links ==> name in listed && listed[name] == put.links[name]
  }

  /** In every schedule a PUT commits these columns and relationships, whatever was committed between its
      check and its statement. */
  lemma PutCommits(schema: Schema, s: State, events: seq<Event>, now: string)
    requires ValidSchema(schema)
    requires StateInv(schema, s) && Runs(schema, s, events) && After(schema, s, events).held.Some?
    ensures
      var end := After(schema, s, events);
      var held := end.held.value;
      var committed := Step(schema, end, Finish(now)).row;
      && committed.Some?
      && ColumnsAre(schema, held.put, end.row, now, committed.value.columns)
      && LinksAre(schema, held.put, held.before, end.row, committed.value.links)
      && Echoes(held.put, Respond(schema, held.put, now, held.before, end.row).links)
  {
    var end := After(schema, s, events);
    var held := end.held.value;
    CommitColumns(schema, held.put, now, held.before, end.row);
    CommitLinks(schema, held.put, now, held.before, end.row);
    hide After, Runs, Commit, ColumnsAre, LinksAre;
  }

  lemma CommitColumns(schema: Schema, put: Put, now: string, before: Option<Row>, at: Option<Row>)
    requires Sane(schema, before, at)
    ensures ColumnsAre(schema, put, at, now, Commit(schema, put, now, before, at).columns)
  {
    hide LeftLinks;
  }

  lemma CommitLinks(schema: Schema, put: Put, now: string, before: Option<Row>, at: Option<Row>)
    requires ValidSchema(schema) && Sane(schema, before, at)
    ensures LinksAre(schema, put, before, at, Commit(schema, put, now, before, at).links)
  {
    hide Upserted;
    forall ids: set<Id> | ids == {} ensures Elements(schema.listing(ids)) == {} {}
  }

  /** What the other transactions do. */
  lemma RivalsDo(schema: Schema, s: State, event: Event)
    requires StateInv(schema, s) && Enabled(schema, s, event)
    ensures
      var row, row' := s.row, Step(schema, s, event).row;
      match event
      case Insert(inserted) => row' == Some(inserted)
      case Destroy => row' == None
      case Patch(attributes) =>
        && row'.Some? && row'.value.links == row.value.links
        && row'.value.columns.Keys == row.value.columns.Keys + attributes.Keys
        && forall column :: column in row'.value.columns ==>
             row'.value.columns[column]
             == if column in attributes then attributes[column] else row.value.columns[column]
      case Mutate(name, mutation, ids) =>
        && row'.Some? && row'.value.columns == row.value.columns && row'.value.links.Keys == row.value.links.Keys
        && (forall other :: other in row.value.links && other != name ==>
              row'.value.links[other] == row.value.links[other])
        && (forall id :: id in row'.value.links[name]
              <==> if mutation.Add? then id in row.value.links[name] || id in ids
                   else if mutation.Replace? then id in ids
                   else id in row.value.links[name] && id !in ids)
      case Begin(put) => row' == row && Step(schema, s, event).held == Some(Held(put, row))
      case Finish(_) => row'.Some? && Step(schema, s, event).held == None
    ensures !event.Begin? && !event.Finish? ==> Step(schema, s, event).held == s.held
  {}

  /** Some order for every set of rows. */
  ghost function AnyOrder(ids: set<Id>): seq<Id> {
    if ids == {} then []
    else
      var id :| id in ids;
      AnyOrder(ids - {id}) + [id]
  }

  lemma {:induction false} AnyOrderLists(ids: set<Id>)
    ensures Elements(AnyOrder(ids)) == ids && NoRepeats(AnyOrder(ids))
  {
    if ids != {} {
      var last := AnyOrder(ids)[|AnyOrder(ids)| - 1];
      AnyOrderLists(ids - {last});
      var init := AnyOrder(ids - {last});
      assert AnyOrder(ids) == init + [last] && last in ids;
      assert Elements(init + [last]) == Elements(init) + {last};
      assert forall i :: 0 <= i < |init| ==> init[i] in Elements(init);
    }
  }

  lemma AnyOrderIsValid()
    ensures ValidListing(AnyOrder)
  {
    forall ids: set<Id> ensures Elements(AnyOrder(ids)) == ids && NoRepeats(AnyOrder(ids)) { AnyOrderLists(ids); }
  }

  /** A schedule with one writable to-many: a rival inserts the row with that relationship set, and
      the PUT that omits it answers 201 yet leaves it in place. */
  lemma RaceKeepsRivalLinks() returns (schema: Schema, put: Put, rival: Row)
    ensures ValidSchema(schema) && Runs(schema, State(None, None), [Begin(put), Insert(rival)])
    ensures After(schema, State(None, None), [Begin(put), Insert(rival)]) == State(Some(rival), Some(Held(put, None)))
    ensures ValidPut(schema, put) && ValidRow(schema, rival)
    ensures Respond(schema, put, "now", None, Some(rival)).created
    ensures !FullyReplaced(schema, put, Commit(schema, put, "now", None, Some(rival)))
  {
    AnyOrderIsValid();
    schema := Schema(["tags"], map["tags" := Definition(true, true, {})], map[], false, AnyOrder);
    put, rival := Put(map[], map[]), Row(map[], map["tags" := {"red"}]);
    assert [Begin(put), Insert(rival)][1..] == [Insert(rival)] && [Insert(rival)][1..] == [];
    assert schema.names[0] == "tags";
    var begun := State(None, Some(Held(put, None)));
    assert After(schema, begun, [Insert(rival)]) == State(Some(rival), begun.held);
    assert Reported(schema, put, None, Some(rival), "tags") == AnyOrder({"red"});
    assert Left(schema, put, None, Some(rival), "tags") == {"red"};
    assert "tags" in schema.defs && "red" in {"red"};
  }

  /** No race at all: a PUT that creates the row and nulls a to-one whose column has a default reports
      null and commits the default. */
  lemma NullKeepsTheDefault() returns (schema: Schema, put: Put)
    ensures ValidSchema(schema) && ValidPut(schema, put)
    ensures !Truthful(Respond(schema, put, "now", None, None), Commit(schema, put, "now", None, None))
  {
    AnyOrderIsValid();
    schema := Schema(["category"], map["category" := Definition(false, true, {"misc"})], map[], false, AnyOrder);
    put := Put(map[], map["category" := []]);
    assert schema.names[0] == "category" && "misc" in {"misc"};
    assert NullOverDefault(schema, put) by { assert "category" in schema.defs; }
    LeftIsReported(schema, put, None, None);
  }

  // ---- Linkage resolution ----

  datatype Identifier = Identifier(typ: string, id: Id)
  datatype LinkageError = TypeMismatch | Duplicate | NotFound

  /** The i-th identifier is the first that is wrong: of another type, or else a repetition. */
  predicate FirstWrong(identifiers: seq<Identifier>, typ: string, i: nat) {
    && i < |identifiers|
    && (forall j :: 0 <= j < i ==> identifiers[j].typ == typ)
    && (forall j, k :: 0 <= j < k < i ==> identifiers[j].id != identifiers[k].id)
    && (identifiers[i].typ != typ || exists j :: 0 <= j < i && identifiers[j].id == identifiers[i].id)
  }

  /** Which identifiers of a linkage resolve: right type, no repetition, all rows found; otherwise the error
      is that of the first wrong identifier, and NOT_FOUND only when none is wrong. */
  method ResolveLinkage(identifiers: seq<Identifier>, typ: string, targets: set<Id>)
    returns (ids: seq<Id>, error: Option<LinkageError>)
    ensures error.None? <==>
      && (forall i :: 0 <= i < |identifiers| ==> identifiers[i].typ == typ && identifiers[i].id in targets)
      && (forall i, j :: 0 <= i < j < |identifiers| ==> identifiers[i].id != identifiers[j].id)
    ensures error.None? ==> |ids| == |identifiers| && forall i :: 0 <= i < |ids| ==> ids[i] == identifiers[i].id
    ensures error == Some(TypeMismatch) ==>
              exists i: nat :: FirstWrong(identifiers, typ, i) && identifiers[i].typ != typ
    ensures error == Some(Duplicate) ==> exists i: nat :: FirstWrong(identifiers, typ, i) && identifiers[i].typ == typ
    ensures error == Some(NotFound) ==>
              && (forall i :: 0 <= i < |identifiers| ==> identifiers[i].typ == typ)
              && (forall i, j :: 0 <= i < j < |identifiers| ==> identifiers[i].id != identifiers[j].id)
  {
    ids := [];
    var seen: set<Id> := {};
    for i := 0 to |identifiers|
      invariant |ids| == i && forall k :: 0 <= k < i ==> ids[k] == identifiers[k].id && identifiers[k].typ == typ
      invariant forall id :: id in seen <==> id in ids
      invariant forall j, k :: 0 <= j < k < i ==> ids[j] != ids[k]
    {
      if identifiers[i].typ != typ {
        assert FirstWrong(identifiers, typ, i);
        return ids, Some(TypeMismatch);
      }
      if identifiers[i].id in seen {
        assert FirstWrong(identifiers, typ, i);
        return ids, Some(Duplicate);
      }
      seen := seen + {identifiers[i].id};
      ids := ids + [identifiers[i].id];
    }
    for i := 0 to |ids|
      invariant forall k :: 0 <= k < i ==> ids[k] in targets
    {
      if ids[i] !in targets {
        return ids, Some(NotFound);
      }
    }
    error := None;
  }
}
