/** Eager-loading plans: what they cover, and why loading linkage only does not change the
    document. */
module LoaderPlan {
  import opened Wrappers
  import opened IncludeTree

  /** A declared relationship; `linkage` marks a to-one whose foreign key column is declared. */
  datatype Relationship = Relationship(name: string, many: bool, target: string, linkage: bool)

  /** The declared relationships of each serializer, by type name, in declaration order. */
  type Schema = map<string, seq<Relationship>>

  datatype LoaderPath = LoaderPath(path: Path, requested: bool)

  function Declared(schema: Schema, typ: string): seq<Relationship> {
    if typ in schema then schema[typ] else []
  }

  function IndexOf(defs: seq<Relationship>, name: string): (i: nat)
    ensures i <= |defs|
    ensures i < |defs| ==> defs[i].name == name
    ensures forall j :: 0 <= j < i ==> defs[j].name != name
    decreases |defs|
  {
    if defs == [] || defs[0].name == name then 0 else IndexOf(defs[1..], name) + 1
  }

  function Definition(schema: Schema, typ: string, name: string): Option<Relationship> {
    var defs := Declared(schema, typ);
    var i := IndexOf(defs, name);
    if i < |defs| then Some(defs[i]) else None
  }

  /** Relationship names are unique per serializer, and a linkage attribute is only declared on a
      to-one relationship. */
  ghost predicate ValidSchema(schema: Schema) {
    forall typ :: typ in schema ==>
      && (forall i, j :: 0 <= i < j < |schema[typ]| ==> schema[typ][i].name != schema[typ][j].name)
      && (forall i :: 0 <= i < |schema[typ]| && schema[typ][i].linkage ==> !schema[typ][i].many)
  }

  /** Every requested name is declared where it is requested. */
  predicate ValidTree(schema: Schema, typ: string, tree: Tree)
    decreases tree
  {
    match tree
    case Leaf => true
    case Branch(name, sub, rest) =>
      var definition := Definition(schema, typ, name);
      definition.Some? && ValidTree(schema, definition.value.target, sub) && ValidTree(schema, typ, rest)
  }

  /** The serializer a path leads to. */
  function TypeAt(schema: Schema, typ: string, path: Path): Option<string>
    decreases |path|
  {
    if path == [] then Some(typ)
    else
      var definition := Definition(schema, typ, path[0]);
      if definition.None? then None else TypeAt(schema, definition.value.target, path[1..])
  }

  // ---- Collecting the paths ----

  /** The first n relationships of the serializer itself. */
  function Own(defs: seq<Relationship>, tree: Tree, prefix: Path, n: nat): seq<LoaderPath>
    requires n <= |defs|
  {
    seq(n, i requires 0 <= i < n => LoaderPath(prefix + [defs[i].name], defs[i].name in Names(tree)))
  }

  function Plan(schema: Schema, typ: string, tree: Tree, prefix: Path): seq<LoaderPath>
    requires ValidTree(schema, typ, tree)
    decreases tree, 1
  {
    Own(Declared(schema, typ), tree, prefix, |Declared(schema, typ)|) + PlanChildren(schema, typ, tree, prefix)
  }

  function PlanChildren(schema: Schema, typ: string, items: Tree, prefix: Path): seq<LoaderPath>
    requires ValidTree(schema, typ, items)
    decreases items, 0
  {
    match items
    case Leaf => []
    case Branch(name, sub, rest) =>
      Plan(schema, Definition(schema, typ, name).value.target, sub, prefix + [name])
      + PlanChildren(schema, typ, rest, prefix)
  }

  predicate Extends(path: Path, prefix: Path) {
    |prefix| < |path| && prefix <= path
  }

  /** Paths planned for children start with the child's name. */
  lemma {:induction false} PlanExtends(schema: Schema, typ: string, tree: Tree, prefix: Path)
    requires ValidTree(schema, typ, tree)
    ensures forall p :: p in Plan(schema, typ, tree, prefix) ==> Extends(p.path, prefix)
    decreases tree, 1
  {
    ChildrenExtend(schema, typ, tree, prefix);
  }

  lemma {:induction false} ChildrenExtend(schema: Schema, typ: string, items: Tree, prefix: Path)
    requires ValidTree(schema, typ, items)
    ensures forall p :: p in PlanChildren(schema, typ, items, prefix) ==>
      Extends(p.path, prefix) && |p.path| > |prefix| + 1 && p.path[|prefix|] in Names(items)
    decreases items, 0
  {
    match items
    case Leaf =>
    case Branch(name, sub, rest) =>
      PlanExtends(schema, Definition(schema, typ, name).value.target, sub, prefix + [name]);
      ChildrenExtend(schema, typ, rest, prefix);
      forall p | p in Plan(schema, Definition(schema, typ, name).value.target, sub, prefix + [name])
        ensures Extends(p.path, prefix) && |p.path| > |prefix| + 1 && p.path[|prefix|] == name
      {
        assert (prefix + [name])[|prefix|] == name;
        assert p.path[..|prefix| + 1] == prefix + [name];
      }
  }

  ghost function PathSet(paths: seq<LoaderPath>): set<Path> {
    set p | p in paths :: p.path
  }

  lemma PathSetAppend(a: seq<LoaderPath>, b: seq<LoaderPath>)
    ensures PathSet(a + b) == PathSet(a) + PathSet(b)
  {}

  lemma EmptyPathSet()
    ensures PathSet([]) == {}
  {}

  /** No path collected so far lies below the prefix. */
  ghost predicate Clear(seen: set<Path>, prefix: Path) {
    forall p :: p in seen ==> !Extends(p, prefix)
  }

  /** ...and none lies below a child that is still to be visited. */
  ghost predicate ClearOf(seen: set<Path>, prefix: Path, names: set<string>) {
    forall p :: p in seen && Extends(p, prefix) && |p| > |prefix| + 1 ==> p[|prefix|] !in names
  }

  lemma ExtendsChild(p: Path, prefix: Path, name: string)
    ensures Extends(p, prefix + [name]) <==> Extends(p, prefix) && |p| > |prefix| + 1 && p[|prefix|] == name
  {
    if |p| > |prefix| + 1 {
      assert p[..|prefix| + 1] == p[..|prefix|] + [p[|prefix|]];
      assert prefix <= p <==> p[..|prefix|] == prefix;
      assert prefix + [name] <= p <==> p[..|prefix| + 1] == prefix + [name];
      assert (prefix + [name])[|prefix|] == name && (prefix + [name])[..|prefix|] == prefix;
    }
  }

  lemma ChildClear(seen: set<Path>, prefix: Path, name: string, names: set<string>)
    requires ClearOf(seen, prefix, names) && name in names
    ensures Clear(seen, prefix + [name])
  {
    forall p | p in seen ensures !Extends(p, prefix + [name]) { ExtendsChild(p, prefix, name); }
  }

  lemma RestClear(seen: set<Path>, plan: seq<LoaderPath>, prefix: Path, name: string, names: set<string>)
    requires ClearOf(seen, prefix, names + {name}) && name !in names
    requires forall p :: p in plan ==> Extends(p.path, prefix + [name])
    ensures ClearOf(seen + PathSet(plan), prefix, names)
  {
    forall p | p in PathSet(plan) && Extends(p, prefix) && |p| > |prefix| + 1 ensures p[|prefix|] == name {
      ExtendsChild(p, prefix, name);
    }
  }

  lemma OwnFresh(defs: seq<Relationship>, tree: Tree, prefix: Path, i: nat)
    requires i < |defs| && forall j, k :: 0 <= j < k < |defs| ==> defs[j].name != defs[k].name
    ensures prefix + [defs[i].name] !in PathSet(Own(defs, tree, prefix, i))
    ensures Extends(prefix + [defs[i].name], prefix)
  {
    forall j | 0 <= j < i ensures prefix + [defs[j].name] != prefix + [defs[i].name] {
      assert (prefix + [defs[j].name])[|prefix|] == defs[j].name;
      assert (prefix + [defs[i].name])[|prefix|] == defs[i].name;
    }
  }

  lemma OwnNext(defs: seq<Relationship>, tree: Tree, prefix: Path, i: nat)
    requires i < |defs|
    ensures Own(defs, tree, prefix, i + 1)
            == Own(defs, tree, prefix, i) + [LoaderPath(prefix + [defs[i].name], defs[i].name in Names(tree))]
    ensures PathSet(Own(defs, tree, prefix, i + 1)) == PathSet(Own(defs, tree, prefix, i)) + {prefix + [defs[i].name]}
  {
    var last := LoaderPath(prefix + [defs[i].name], defs[i].name in Names(tree));
    assert PathSet([last]) == {last.path};
    PathSetAppend(Own(defs, tree, prefix, i), [last]);
    assert Own(defs, tree, prefix, i + 1) == Own(defs, tree, prefix, i) + [last];
  }

  lemma OwnShallow(defs: seq<Relationship>, tree: Tree, prefix: Path, names: set<string>, seen: set<Path>)
    requires Clear(seen, prefix)
    ensures ClearOf(seen + PathSet(Own(defs, tree, prefix, |defs|)), prefix, names)
  {}

  /** The lists `_collect_loader_paths` updates in place. */
  class Collector {
    const schema: Schema
    var paths: seq<LoaderPath>
    var seen: set<Path>

    constructor (schema: Schema)
      ensures this.schema == schema && paths == [] && seen == {}
    {
      this.schema := schema;
      paths, seen := [], {};
    }

    /** Own relationships first, then each requested child; the duplicate check never fires. */
    method Collect(typ: string, tree: Tree, prefix: Path)
      requires ValidSchema(schema) && ValidTree(schema, typ, tree) && WellFormed(tree)
      requires Clear(seen, prefix)
      modifies this
      ensures paths == old(paths) + Plan(schema, typ, tree, prefix)
      ensures seen == old(seen) + PathSet(Plan(schema, typ, tree, prefix))
      decreases tree, 1
    {
      hide PathSet, Clear, ClearOf, Own, WellFormed;
      var defs := Declared(schema, typ);
      ghost var own := Own(defs, tree, prefix, |defs|);
      CollectOwn(defs, tree, prefix);
      OwnShallow(defs, tree, prefix, Names(tree), old(seen));
      CollectChildren(typ, tree, prefix);
      PathSetAppend(own, PlanChildren(schema, typ, tree, prefix));
      assert paths == old(paths) + (own + PlanChildren(schema, typ, tree, prefix));
    }

    method CollectOwn(defs: seq<Relationship>, tree: Tree, prefix: Path)
      requires forall j, k :: 0 <= j < k < |defs| ==> defs[j].name != defs[k].name
      requires Clear(seen, prefix)
      modifies this
      ensures paths == old(paths) + Own(defs, tree, prefix, |defs|)
      ensures seen == old(seen) + PathSet(Own(defs, tree, prefix, |defs|))
    {
      for i := 0 to |defs|
        invariant paths == old(paths) + Own(defs, tree, prefix, i)
        invariant seen == old(seen) + PathSet(Own(defs, tree, prefix, i))
      {
        var path := prefix + [defs[i].name];
        OwnFresh(defs, tree, prefix, i);
        OwnNext(defs, tree, prefix, i);
        if path !in seen {
          seen := seen + {path};
          paths := paths + [LoaderPath(path, defs[i].name in Names(tree))];
        }
      }
    }

    method CollectChildren(typ: string, items: Tree, prefix: Path)
      requires ValidSchema(schema) && ValidTree(schema, typ, items) && WellFormed(items)
      requires ClearOf(seen, prefix, Names(items))
      modifies this
      ensures paths == old(paths) + PlanChildren(schema, typ, items, prefix)
      ensures seen == old(seen) + PathSet(PlanChildren(schema, typ, items, prefix))
      decreases items, 0
    {
      hide PathSet, Clear, ClearOf, Own, Extends, ValidSchema;
      match items {
        case Leaf => EmptyPathSet();
        case Branch(name, sub, rest) =>
          var target := Definition(schema, typ, name).value.target;
          ghost var plan := Plan(schema, target, sub, prefix + [name]);
          ChildClear(seen, prefix, name, Names(items));
          PlanExtends(schema, target, sub, prefix + [name]);
          assert Names(items) == Names(rest) + {name};
          RestClear(seen, plan, prefix, name, Names(rest));
          Collect(target, sub, prefix + [name]);
          CollectChildren(typ, rest, prefix);
          PathSetAppend(plan, PlanChildren(schema, typ, rest, prefix));
          assert paths == old(paths) + (plan + PlanChildren(schema, typ, rest, prefix));
      }
    }
  }
}
