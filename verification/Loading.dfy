/** What a loader plan loads, what serialization reads, and the linkage-only optimisation. */
module Loading {
  import opened Wrappers
  import opened Sorting
  import opened IncludeTree
  import opened Serializer
  import opened LoaderPlan

  // ---- The plan covers exactly the relationships of the include tree's nodes ----

  /** `q` is a node of the tree and its serializer declares `r`. */
  predicate Covers(schema: Schema, typ: string, tree: Tree, q: Path, r: string) {
    && At(tree, q).Some? && TypeAt(schema, typ, q).Some?
    && Definition(schema, TypeAt(schema, typ, q).value, r).Some?
  }

  function Entry(tree: Tree, prefix: Path, q: Path, r: string): LoaderPath {
    LoaderPath(prefix + q + [r], At(tree, q + [r]).Some?)
  }

  lemma OwnHas(schema: Schema, typ: string, tree: Tree, prefix: Path, r: string)
    requires Definition(schema, typ, r).Some?
    ensures var defs := Declared(schema, typ); Entry(tree, prefix, [], r) in Own(defs, tree, prefix, |defs|)
  {
    var defs := Declared(schema, typ);
    var i := IndexOf(defs, r);
    assert prefix + [] == prefix && [] + [r] == [r];
    ChildName(tree, r);
    AtAppend(tree, [], r);
    assert Own(defs, tree, prefix, |defs|)[i] == Entry(tree, prefix, [], r);
  }

  /** A path below a child, seen from the parent. */
  lemma Deepen(schema: Schema, typ: string, tree: Tree, prefix: Path, name: string, q: Path, r: string)
    requires Child(tree, name).Some? && Definition(schema, typ, name).Some?
    ensures Covers(schema, typ, tree, [name] + q, r)
            <==> Covers(schema, Definition(schema, typ, name).value.target, Child(tree, name).value, q, r)
    ensures Entry(tree, prefix, [name] + q, r) == Entry(Child(tree, name).value, prefix + [name], q, r)
  {
    hide Declared, IndexOf;
    assert ([name] + q)[1..] == q;
    assert ([name] + q + [r])[1..] == q + [r];
    assert prefix + [name] + q + [r] == prefix + ([name] + q) + [r];
  }

  lemma {:induction false} PlanHas(schema: Schema, typ: string, tree: Tree, prefix: Path, q: Path, r: string)
    requires ValidTree(schema, typ, tree) && Covers(schema, typ, tree, q, r)
    ensures Entry(tree, prefix, q, r) in Plan(schema, typ, tree, prefix)
    decreases |q|
  {
    hide Own, Entry, Covers, PlanChildren, WellFormed, Declared;
    if q == [] {
      OwnCovers(schema, typ, tree, r);
      OwnHas(schema, typ, tree, prefix, r);
    } else {
      var name, rest := q[0], q[1..];
      assert q == [name] + rest;
      CoversChild(schema, typ, tree, q, r);
      ChildValid(schema, typ, tree, name);
      Deepen(schema, typ, tree, prefix, name, rest, r);
      PlanHas(schema, Definition(schema, typ, name).value.target, Child(tree, name).value, prefix + [name], rest, r);
      ChildrenHave(schema, typ, tree, prefix, name, Entry(tree, prefix, q, r));
    }
  }

  lemma OwnCovers(schema: Schema, typ: string, tree: Tree, r: string)
    requires Covers(schema, typ, tree, [], r)
    ensures Definition(schema, typ, r).Some?
  {}

  lemma CoversChild(schema: Schema, typ: string, tree: Tree, q: Path, r: string)
    requires q != [] && Covers(schema, typ, tree, q, r)
    ensures Child(tree, q[0]).Some? && Definition(schema, typ, q[0]).Some?
  {}

  lemma {:induction false} ChildValid(schema: Schema, typ: string, items: Tree, name: string)
    requires ValidTree(schema, typ, items) && Child(items, name).Some?
    ensures Definition(schema, typ, name).Some?
    ensures ValidTree(schema, Definition(schema, typ, name).value.target, Child(items, name).value)
    decreases items
  {
    if items.name != name { ChildValid(schema, typ, items.rest, name); }
  }

  lemma {:induction false} ChildrenHave(schema: Schema, typ: string, items: Tree, prefix: Path, name: string,
                                        entry: LoaderPath)
    requires ValidTree(schema, typ, items) && Child(items, name).Some? && Definition(schema, typ, name).Some?
    requires ValidTree(schema, Definition(schema, typ, name).value.target, Child(items, name).value)
    requires entry in Plan(schema, Definition(schema, typ, name).value.target, Child(items, name).value,
                           prefix + [name])
    ensures entry in PlanChildren(schema, typ, items, prefix)
    decreases items
  {
    if items.name != name { ChildrenHave(schema, typ, items.rest, prefix, name, entry); }
  }

  lemma {:induction false} PlanOnly(schema: Schema, typ: string, tree: Tree, prefix: Path, entry: LoaderPath)
    returns (q: Path, r: string)
    requires ValidTree(schema, typ, tree) && WellFormed(tree) && entry in Plan(schema, typ, tree, prefix)
    ensures Covers(schema, typ, tree, q, r) && entry == Entry(tree, prefix, q, r)
    decreases tree, 1
  {
    hide Own, Entry, Covers, PlanChildren, Declared, WellFormed, ValidTree, Definition;
    var defs := Declared(schema, typ);
    if entry in Own(defs, tree, prefix, |defs|) {
      q := [];
      r := OwnOnly(schema, typ, tree, prefix, entry);
    } else {
      var name: string;
      var rest: Path;
      name, rest, r := ChildrenOnly(schema, typ, tree, prefix, entry);
      Deepen(schema, typ, tree, prefix, name, rest, r);
      q := [name] + rest;
    }
  }

  lemma OwnOnly(schema: Schema, typ: string, tree: Tree, prefix: Path, entry: LoaderPath) returns (r: string)
    requires entry in Own(Declared(schema, typ), tree, prefix, |Declared(schema, typ)|)
    ensures Covers(schema, typ, tree, [], r) && entry == Entry(tree, prefix, [], r)
  {
    var defs := Declared(schema, typ);
    var i :| 0 <= i < |defs| && entry == Own(defs, tree, prefix, |defs|)[i];
    r := defs[i].name;
    assert prefix + [] == prefix && [] + [r] == [r];
    ChildName(tree, r);
    AtAppend(tree, [], r);
  }

  lemma {:induction false} ChildrenOnly(schema: Schema, typ: string, items: Tree, prefix: Path, entry: LoaderPath)
    returns (name: string, q: Path, r: string)
    requires ValidTree(schema, typ, items) && WellFormed(items) && entry in PlanChildren(schema, typ, items, prefix)
    ensures Child(items, name).Some? && Definition(schema, typ, name).Some?
    ensures Covers(schema, Definition(schema, typ, name).value.target, Child(items, name).value, q, r)
    ensures entry == Entry(Child(items, name).value, prefix + [name], q, r)
    decreases items, 0
  {
    var target := Definition(schema, typ, items.name).value.target;
    if entry in Plan(schema, target, items.sub, prefix + [items.name]) {
      name := items.name;
      q, r := PlanOnly(schema, target, items.sub, prefix + [name], entry);
    } else {
      name, q, r := ChildrenOnly(schema, typ, items.rest, prefix, entry);
      ChildName(items.rest, name);
    }
  }

  /** The plan's paths are exactly the relationships of every node of the include tree, and a path is
      flagged as requested exactly when it is itself a node. */
  lemma PlanIsExact(schema: Schema, typ: string, tree: Tree, path: Path, requested: bool)
    requires ValidTree(schema, typ, tree) && WellFormed(tree)
    ensures LoaderPath(path, requested) in Plan(schema, typ, tree, []) <==>
            exists q, r :: path == q + [r] && Covers(schema, typ, tree, q, r) && requested == At(tree, path).Some?
  {
    hide Covers, Plan, WellFormed, ValidTree, At;
    if LoaderPath(path, requested) in Plan(schema, typ, tree, []) {
      var q, r := PlanOnly(schema, typ, tree, [], LoaderPath(path, requested));
      EntryAtRoot(tree, q, r);
    }
    if q, r :| path == q + [r] && Covers(schema, typ, tree, q, r) && requested == At(tree, path).Some? {
      PlanHas(schema, typ, tree, [], q, r);
      EntryAtRoot(tree, q, r);
    }
  }

  lemma EntryAtRoot(tree: Tree, q: Path, r: string)
    ensures Entry(tree, [], q, r) == LoaderPath(q + [r], At(tree, q + [r]).Some?)
  {
    assert [] + q == q;
  }

  ghost predicate NoPathTwice(paths: seq<LoaderPath>) {
    forall i, j :: 0 <= i < j < |paths| ==> paths[i].path != paths[j].path
  }

  lemma Disjoin(a: seq<LoaderPath>, b: seq<LoaderPath>)
    requires NoPathTwice(a) && NoPathTwice(b)
    requires forall p, q :: p in a && q in b ==> p.path != q.path
    ensures NoPathTwice(a + b)
  {
    forall i, j | 0 <= i < j < |a + b| ensures (a + b)[i].path != (a + b)[j].path {
      if i < |a| && j >= |a| { assert a[i] in a && b[j - |a|] in b; }
    }
  }

  /** No path is planned twice. */
  lemma {:induction false} PlanHasNoDuplicates(schema: Schema, typ: string, tree: Tree, prefix: Path)
    requires ValidSchema(schema) && ValidTree(schema, typ, tree) && WellFormed(tree)
    ensures NoPathTwice(Plan(schema, typ, tree, prefix))
    decreases tree, 1
  {
    var defs := Declared(schema, typ);
    var own := Own(defs, tree, prefix, |defs|);
    forall i, j | 0 <= i < j < |defs| ensures own[i].path != own[j].path {
      assert own[i].path[|prefix|] == defs[i].name && own[j].path[|prefix|] == defs[j].name;
    }
    ChildrenHaveNoDuplicates(schema, typ, tree, prefix);
    ChildrenExtend(schema, typ, tree, prefix);
    forall p | p in own ensures |p.path| == |prefix| + 1 {}
    Disjoin(own, PlanChildren(schema, typ, tree, prefix));
  }

  lemma {:induction false} ChildrenHaveNoDuplicates(schema: Schema, typ: string, items: Tree, prefix: Path)
    requires ValidSchema(schema) && ValidTree(schema, typ, items) && WellFormed(items)
    ensures NoPathTwice(PlanChildren(schema, typ, items, prefix))
    decreases items, 0
  {
    match items
    case Leaf =>
    case Branch(name, sub, rest) =>
      var target := Definition(schema, typ, name).value.target;
      var plan := Plan(schema, target, sub, prefix + [name]);
      PlanHasNoDuplicates(schema, target, sub, prefix + [name]);
      ChildrenHaveNoDuplicates(schema, typ, rest, prefix);
      PlanExtends(schema, target, sub, prefix + [name]);
      ChildrenExtend(schema, typ, rest, prefix);
      forall p | p in plan ensures |p.path| > |prefix| && p.path[|prefix|] == name {
        ExtendsChild(p.path, prefix, name);
      }
      Disjoin(plan, PlanChildren(schema, typ, rest, prefix));
  }

  // ---- The database and what a plan loads of it ----

  /** Rows: the related objects and the foreign key columns. */
  datatype Store = Store(graph: Graph, foreignKeys: map<Key, map<string, Option<string>>>)

  ghost predicate Typed(schema: Schema, g: Graph, key: Key, name: string) {
    Related(g, key, name) == []
    || (Definition(schema, key.typ, name).Some?
        && forall k :: k in Related(g, key, name) ==> k.typ == Definition(schema, key.typ, name).value.target)
  }

  ghost predicate WellTyped(schema: Schema, g: Graph) {
    forall key: Key, name: string :: Typed(schema, g, key, name)
  }

  ghost predicate ToOneIsSingle(schema: Schema, g: Graph) {
    forall key: Key, name: string ::
      Definition(schema, key.typ, name).Some? && !Definition(schema, key.typ, name).value.many ==>
      |Related(g, key, name)| <= 1
  }

  function ForeignKey(store: Store, key: Key, name: string): Option<string> {
    if key in store.foreignKeys && name in store.foreignKeys[key] then store.foreignKeys[key][name] else None
  }

  /** What `_validate_linkage_attribute` and referential integrity give: the declared column is
      exactly the related row's id. */
  ghost predicate ForeignKeysAgree(schema: Schema, store: Store) {
    forall key: Key, name: string ::
      Definition(schema, key.typ, name).Some? && Definition(schema, key.typ, name).value.linkage ==>
      var related := Related(store.graph, key, name);
      ForeignKey(store, key, name) == if related == [] then None else Some(related[0].id)
  }

  ghost predicate Sound(schema: Schema, store: Store) {
    && ValidSchema(schema) && WellTyped(schema, store.graph) && ToOneIsSingle(schema, store.graph)
    && ForeignKeysAgree(schema, store)
  }

  /** One read: which collection is serialized, with which include tree, in which mode. */
  datatype Read = Read(schema: Schema, typ: string, tree: Tree, primaries: seq<Key>, linkageOnly: bool)

  predicate ValidRead(read: Read) {
    && ValidTree(read.schema, read.typ, read.tree) && WellFormed(read.tree)
    && forall i :: 0 <= i < |read.primaries| ==> read.primaries[i].typ == read.typ
  }

  function Beyond(g: Graph, keys: set<Key>, name: string): set<Key> {
    set mid, to | mid in keys && to in Related(g, mid, name) :: to
  }

  /** The objects reached from `from` along the relationships of the path. */
  ghost function Reached(g: Graph, from: Key, path: Path): set<Key>
    decreases |path|
  {
    if path == [] then {from} else Beyond(g, Reached(g, from, path[..|path| - 1]), path[|path| - 1])
  }

  ghost predicate Reaches(g: Graph, from: Key, path: Path, to: Key) {
    to in Reached(g, from, path)
  }

  /** The loader option of a path is dropped only in linkage-only mode, for a to-one that was not
      requested and declares its foreign key. */
  predicate Dropped(read: Read, typ: string, entry: LoaderPath, r: string) {
    && read.linkageOnly && !entry.requested
    && Definition(read.schema, typ, r).Some? && Definition(read.schema, typ, r).value.linkage
  }

  /** Some loader path ends in this relationship of this object. */
  ghost predicate LoadedVia(read: Read, g: Graph, key: Key, name: string, m: Key, q: Path)
    requires ValidTree(read.schema, read.typ, read.tree)
  {
    && m in read.primaries && Reaches(g, m, q, key)
    && exists entry :: entry in Plan(read.schema, read.typ, read.tree, []) && entry.path == q + [name]
                       && !Dropped(read, key.typ, entry, name)
  }

  ghost predicate Loaded(read: Read, g: Graph, key: Key, name: string)
    requires ValidTree(read.schema, read.typ, read.tree)
  {
    exists m, q :: LoadedVia(read, g, key, name, m, q)
  }

  /** The object's own columns are loaded, not just its primary key. */
  ghost predicate HasColumns(read: Read, g: Graph, key: Key)
    requires ValidTree(read.schema, read.typ, read.tree)
  {
    key in read.primaries
    || exists m, entry :: m in read.primaries && entry in Plan(read.schema, read.typ, read.tree, [])
                          && Reaches(g, m, entry.path, key) && (!read.linkageOnly || entry.requested)
  }

  // ---- What serialization reads ----

  datatype Linkage = ToMany(keys: seq<Key>) | ToOne(key: Option<Key>)

  /** The linkage as the rows define it. */
  function TrueLinkage(g: Graph, key: Key, def: Relationship): Linkage {
    var related := Related(g, key, def.name);
    if def.many then ToMany(related) else ToOne(if related == [] then None else Some(related[0]))
  }

  /** The foreign key shortcut of an unloaded to-one, else the loaded relationship, else the
      unloaded-relationship error. */
  ghost function ReadLinkage(read: Read, store: Store, key: Key, def: Relationship): Option<Linkage>
    requires ValidTree(read.schema, read.typ, read.tree)
  {
    var loaded := Loaded(read, store.graph, key, def.name);
    if def.linkage && !def.many && !loaded && HasColumns(read, store.graph, key) then
      var fk := ForeignKey(store, key, def.name);
      Some(ToOne(if fk.None? then None else Some(Key(def.target, fk.value))))
    else if loaded then Some(TrueLinkage(store.graph, key, def))
    else None
  }

  /** The objects a loaded relationship yields for descending; none through the shortcut. */
  ghost function LoadedGraph(read: Read, g: Graph): Graph
    requires ValidTree(read.schema, read.typ, read.tree)
  {
    map key | key in g :: map name | name in g[key] && Loaded(read, g, key, name) :: g[key][name]
  }

  /** A resource met at a node of the include tree. */
  ghost predicate MetAt(read: Read, g: Graph, key: Key, m: Key, b: Path) {
    && m in read.primaries && Reaches(g, m, b, key)
    && At(read.tree, b).Some? && TypeAt(read.schema, read.typ, b) == Some(key.typ)
  }

  ghost predicate Met(read: Read, g: Graph, key: Key) {
    exists m, b :: MetAt(read, g, key, m, b)
  }

  lemma {:induction false} TypeAtAppend(schema: Schema, typ: string, path: Path, name: string)
    ensures TypeAt(schema, typ, path + [name])
            == if TypeAt(schema, typ, path).None? then None
               else if Definition(schema, TypeAt(schema, typ, path).value, name).None? then None
               else Some(Definition(schema, TypeAt(schema, typ, path).value, name).value.target)
    decreases |path|
  {
    if path == [] {
      assert (path + [name])[1..] == [];
    } else {
      assert (path + [name])[1..] == path[1..] + [name];
      var definition := Definition(schema, typ, path[0]);
      if definition.Some? { TypeAtAppend(schema, definition.value.target, path[1..], name); }
    }
  }

  /** Descending into a requested relationship meets its objects one level deeper. */
  lemma MetStep(read: Read, g: Graph, key: Key, m: Key, b: Path, name: string, k: Key)
    requires WellTyped(read.schema, g) && MetAt(read, g, key, m, b)
    requires Child(At(read.tree, b).value, name).Some? && k in Related(g, key, name)
    ensures MetAt(read, g, k, m, b + [name])
  {
    AtAppend(read.tree, b, name);
    TypeAtAppend(read.schema, read.typ, b, name);
    assert Typed(read.schema, g, key, name);
    assert (b + [name])[..|b + [name]| - 1] == b;
  }

  /** At a node of the tree every declared relationship has a loader path. */
  lemma MetIsPlanned(read: Read, g: Graph, key: Key, m: Key, b: Path, name: string)
    requires ValidRead(read) && MetAt(read, g, key, m, b) && Definition(read.schema, key.typ, name).Some?
    ensures LoaderPath(b + [name], At(read.tree, b + [name]).Some?) in Plan(read.schema, read.typ, read.tree, [])
  {
    PlanHas(read.schema, read.typ, read.tree, [], b, name);
    EntryAtRoot(read.tree, b, name);
  }

  /** A met resource has its columns. */
  lemma MetHasColumns(read: Read, g: Graph, key: Key)
    requires ValidRead(read) && Met(read, g, key)
    ensures HasColumns(read, g, key)
  {
    var m, b :| MetAt(read, g, key, m, b);
    if b != [] {
      hide Plan, Entry, Reaches, ValidTree;
      var q, r := b[..|b| - 1], b[|b| - 1];
      assert b == q + [r];
      AtAppend(read.tree, q, r);
      TypeAtAppend(read.schema, read.typ, q, r);
      PlanHas(read.schema, read.typ, read.tree, [], q, r);
      EntryAtRoot(read.tree, q, r);
      assert LoaderPath(b, true) in Plan(read.schema, read.typ, read.tree, []);
    }
  }

  /** A met resource has every declared relationship loaded, except those whose option was dropped. */
  lemma MetIsLoaded(read: Read, g: Graph, key: Key, m: Key, b: Path, name: string)
    requires ValidRead(read) && MetAt(read, g, key, m, b) && Definition(read.schema, key.typ, name).Some?
    requires !read.linkageOnly || At(read.tree, b + [name]).Some?
             || !Definition(read.schema, key.typ, name).value.linkage
    ensures Loaded(read, g, key, name)
  {
    MetIsPlanned(read, g, key, m, b, name);
    var entry := LoaderPath(b + [name], At(read.tree, b + [name]).Some?);
    assert !Dropped(read, key.typ, entry, name);
    assert LoadedVia(read, g, key, name, m, b);
  }

  /** Serializing a met resource never finds an unloaded relationship, and the linkage it emits is
      the true one, whichever plan loaded it. */
  lemma MetReadsTrueLinkage(read: Read, store: Store, key: Key, def: Relationship)
    requires Sound(read.schema, store) && ValidRead(read) && Met(read, store.graph, key)
    requires Definition(read.schema, key.typ, def.name) == Some(def)
    ensures ReadLinkage(read, store, key, def) == Some(TrueLinkage(store.graph, key, def))
  {
    var g := store.graph;
    MetHasColumns(read, g, key);
    var m, b :| MetAt(read, g, key, m, b);
    var related := Related(g, key, def.name);
    if !Loaded(read, g, key, def.name) {
      if !def.linkage || !read.linkageOnly { MetIsLoaded(read, g, key, m, b, def.name); }
      LinkageIsToOne(read.schema, key.typ, def);
      assert Typed(read.schema, g, key, def.name);
    }
  }

  lemma LinkageIsToOne(schema: Schema, typ: string, def: Relationship)
    requires ValidSchema(schema) && Definition(schema, typ, def.name) == Some(def) && def.linkage
    ensures !def.many
  {}

  // ---- The walk over what was loaded is the walk over the rows ----

  lemma LoadedRelated(read: Read, g: Graph, key: Key, name: string)
    requires ValidRead(read) && Loaded(read, g, key, name)
    ensures Related(LoadedGraph(read, g), key, name) == Related(g, key, name)
  {}

  lemma RelatedLoaded(read: Read, g: Graph, key: Key, m: Key, b: Path, name: string)
    requires ValidRead(read) && WellTyped(read.schema, g) && MetAt(read, g, key, m, b)
    requires Child(At(read.tree, b).value, name).Some?
    ensures Related(LoadedGraph(read, g), key, name) == Related(g, key, name)
  {
    AtAppend(read.tree, b, name);
    if Definition(read.schema, key.typ, name).Some? {
      MetIsLoaded(read, g, key, m, b, name);
      LoadedRelated(read, g, key, name);
    } else {
      assert Typed(read.schema, g, key, name);
    }
  }

  lemma {:induction false} WalkLoaded(read: Read, g: Graph, key: Key, m: Key, b: Path, items: Tree)
    requires ValidRead(read) && WellTyped(read.schema, g) && MetAt(read, g, key, m, b)
    requires WellFormed(items) && Suffix(items, At(read.tree, b).value)
    ensures Walk(LoadedGraph(read, g), key, items) == Walk(g, key, items)
    ensures forall x :: x in Walk(g, key, items) ==> Met(read, g, x)
    decreases items, 0
  {
    match items
    case Leaf =>
    case Branch(name, sub, rest) =>
      SuffixNext(items, At(read.tree, b).value);
      RelatedLoaded(read, g, key, m, b, name);
      forall k | k in Related(g, key, name) ensures MetAt(read, g, k, m, b + [name]) {
        MetStep(read, g, key, m, b, name, k);
      }
      AtAppend(read.tree, b, name);
      WalkEachLoaded(read, g, Related(g, key, name), m, b + [name], sub);
      WalkLoaded(read, g, key, m, b, rest);
  }

  lemma {:induction false} WalkEachLoaded(read: Read, g: Graph, keys: seq<Key>, m: Key, b: Path, sub: Tree)
    requires ValidRead(read) && WellTyped(read.schema, g) && WellFormed(sub)
    requires forall k :: k in keys ==> MetAt(read, g, k, m, b)
    requires At(read.tree, b) == Some(sub)
    ensures WalkEach(LoadedGraph(read, g), keys, sub) == WalkEach(g, keys, sub)
    ensures forall x :: x in WalkEach(g, keys, sub) ==> Met(read, g, x)
    decreases sub, 1, |keys|
  {
    if keys != [] {
      var init, last := keys[..|keys| - 1], keys[|keys| - 1];
      WalkEachLoaded(read, g, init, m, b, sub);
      assert MetAt(read, g, last, m, b);
      WalkLoaded(read, g, last, m, b, sub);
    }
  }

  lemma {:induction false} WalkPrimariesLoaded(read: Read, g: Graph, primaries: seq<Key>)
    requires ValidRead(read) && WellTyped(read.schema, g) && forall k :: k in primaries ==> k in read.primaries
    ensures WalkPrimaries(LoadedGraph(read, g), primaries, read.tree) == WalkPrimaries(g, primaries, read.tree)
    ensures forall x :: x in primaries || x in WalkPrimaries(g, primaries, read.tree) ==> Met(read, g, x)
    decreases |primaries|
  {
    if primaries != [] {
      var init, last := primaries[..|primaries| - 1], primaries[|primaries| - 1];
      WalkPrimariesLoaded(read, g, init);
      assert last in primaries;
      assert MetAt(read, g, last, last, []);
      WalkLoaded(read, g, last, last, [], read.tree);
      assert primaries == init + [last];
    }
  }

  /** Every resource of the document was met by the walk. */
  lemma DocumentIsMet(read: Read, g: Graph, key: Key)
    requires ValidRead(read) && WellTyped(read.schema, g)
    requires key in read.primaries || key in IncludedSpec(g, read.primaries, read.tree)
    ensures Met(read, g, key)
  {
    hide Met, WellTyped, ValidRead, WalkPrimaries;
    WalkPrimariesLoaded(read, g, read.primaries);
    var primary := set k | k in read.primaries;
    var all := WalkPrimaries(g, read.primaries, read.tree);
    FilterMembers(Secondary(primary), all);
    DistinctMembers(Filter(Secondary(primary), all));
  }

  /** Both plans give the same document: the same included resources in the same order ... */
  lemma PlansAgree(read: Read, store: Store)
    requires Sound(read.schema, store) && ValidRead(read)
    ensures IncludedSpec(LoadedGraph(read, store.graph), read.primaries, read.tree)
            == IncludedSpec(store.graph, read.primaries, read.tree)
  {
    hide WellTyped, ValidRead, WalkPrimaries, LoadedGraph, Distinct, Filter, Met;
    WalkPrimariesLoaded(read, store.graph, read.primaries);
  }

  /** ... and for every resource of the document its columns and all its linkage, without meeting
      an unloaded relationship. */
  lemma LinkageAgrees(read: Read, store: Store, key: Key, def: Relationship)
    requires Sound(read.schema, store) && ValidRead(read)
    requires key in read.primaries || key in IncludedSpec(store.graph, read.primaries, read.tree)
    requires Definition(read.schema, key.typ, def.name) == Some(def)
    ensures HasColumns(read, store.graph, key)
    ensures ReadLinkage(read, store, key, def) == Some(TrueLinkage(store.graph, key, def))
  {
    hide Met, WellTyped, ValidRead, HasColumns, ReadLinkage, IncludedSpec;
    DocumentIsMet(read, store.graph, key);
    MetHasColumns(read, store.graph, key);
    MetReadsTrueLinkage(read, store, key, def);
  }

  /** That linkage spelled out: a to-many lists all related resources in order, a to-one names the related
      resource if there is one. */
  lemma LinkageListsRelated(read: Read, store: Store, key: Key, def: Relationship)
    requires Sound(read.schema, store) && ValidRead(read)
    requires key in read.primaries || key in IncludedSpec(store.graph, read.primaries, read.tree)
    requires Definition(read.schema, key.typ, def.name) == Some(def)
    ensures ReadLinkage(read, store, key, def).Some?
    ensures
      var linkage, related := ReadLinkage(read, store, key, def).value, Related(store.graph, key, def.name);
      && (def.many ==> linkage == ToMany(related))
      && (!def.many ==> linkage.ToOne? && |related| <= 1 && (linkage.key.None? <==> related == [])
                        && (linkage.key.Some? ==> related == [linkage.key.value]))
  {
    LinkageAgrees(read, store, key, def);
    ToOneHasOne(read, store, key, def);
    hide Sound, ValidRead, ReadLinkage, IncludedSpec;
  }

  lemma ToOneHasOne(read: Read, store: Store, key: Key, def: Relationship)
    requires Sound(read.schema, store) && Definition(read.schema, key.typ, def.name) == Some(def)
    ensures !def.many ==> |Related(store.graph, key, def.name)| <= 1
  {}

  /** A plan starts with the serializer's own relationships in declaration order; all paths after them are
      longer, so every relationship is loaded before what lies below it. */
  lemma PlanStartsWithOwn(schema: Schema, typ: string, tree: Tree, prefix: Path)
    requires ValidTree(schema, typ, tree)
    ensures
      var defs, plan := Declared(schema, typ), Plan(schema, typ, tree, prefix);
      && |plan| >= |defs|
      && (forall i :: 0 <= i < |defs| ==> plan[i].path == prefix + [defs[i].name])
      && (forall i :: |defs| <= i < |plan| ==> |plan[i].path| > |prefix| + 1)
  {
    ChildrenExtend(schema, typ, tree, prefix);
    var defs, children := Declared(schema, typ), PlanChildren(schema, typ, tree, prefix);
    assert forall i :: 0 <= i < |children| ==> children[i] in children;
  }
}
