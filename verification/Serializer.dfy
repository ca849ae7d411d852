/** Compound documents: a depth-first walk of a possibly cyclic object graph, pruned by a visited
    set, against the walk without pruning. */
module Serializer {
  import opened Wrappers
  import opened Sorting
  import opened IncludeTree

  /** A resource is identified by its type and id; the identity map makes that its object. */
  datatype Key = Key(typ: string, id: string)

  /** The related objects of every loaded relationship, in order. */
  type Graph = map<Key, map<string, seq<Key>>>

  function Related(g: Graph, key: Key, name: string): seq<Key> {
    if key in g && name in g[key] then g[key][name] else []
  }

  // ---- The walk without pruning ----

  /** Every resource met below `key`, in the order a full depth-first walk meets it. */
  function Walk(g: Graph, key: Key, tree: Tree): seq<Key>
    decreases tree, 0
  {
    match tree
    case Leaf => []
    case Branch(name, sub, rest) => WalkEach(g, Related(g, key, name), sub) + Walk(g, key, rest)
  }

  function WalkEach(g: Graph, keys: seq<Key>, sub: Tree): seq<Key>
    decreases sub, 1, |keys|
  {
    if keys == [] then [] else WalkEach(g, keys[..|keys| - 1], sub) + Visit(g, keys[|keys| - 1], sub)
  }

  /** A resource and everything below it. */
  function Visit(g: Graph, key: Key, sub: Tree): seq<Key>
    decreases sub, 1, 0
  {
    [key] + Walk(g, key, sub)
  }

  /** `included.setdefault` for each key in turn, unless it is primary. */
  function Register(included: seq<Key>, primary: set<Key>, keys: seq<Key>): seq<Key>
    decreases |keys|
  {
    if keys == [] then included
    else
      var before := Register(included, primary, keys[..|keys| - 1]);
      var key := keys[|keys| - 1];
      if key in primary || key in before then before else before + [key]
  }

  lemma RegisterOne(included: seq<Key>, primary: set<Key>, key: Key)
    ensures Register(included, primary, [key])
            == if key in primary || key in included then included else included + [key]
  {
    assert [key][..0] == [];
  }

  predicate Known(included: seq<Key>, primary: set<Key>, keys: seq<Key>) {
    forall i :: 0 <= i < |keys| ==> keys[i] in primary || keys[i] in included
  }

  lemma {:induction false} RegisterAppend(included: seq<Key>, primary: set<Key>, a: seq<Key>, b: seq<Key>)
    ensures Register(included, primary, a + b) == Register(Register(included, primary, a), primary, b)
    decreases |b|
  {
    if b == [] {
      assert a + b == a;
    } else {
      assert (a + b)[..|a + b| - 1] == a + b[..|b| - 1];
      RegisterAppend(included, primary, a, b[..|b| - 1]);
    }
  }

  lemma {:induction false} RegisterKnown(included: seq<Key>, primary: set<Key>, keys: seq<Key>)
    requires Known(included, primary, keys)
    ensures Register(included, primary, keys) == included
    decreases |keys|
  {
    if keys != [] {
      RegisterKnown(included, primary, keys[..|keys| - 1]);
    }
  }

  lemma {:induction false} RegisterMembers(included: seq<Key>, primary: set<Key>, keys: seq<Key>)
    ensures included <= Register(included, primary, keys)
    ensures forall k :: k in included ==> k in Register(included, primary, keys)
    ensures Known(Register(included, primary, keys), primary, keys)
    decreases |keys|
  {
    if keys != [] {
      var init := keys[..|keys| - 1];
      RegisterMembers(included, primary, init);
      var before := Register(included, primary, init);
      forall i | 0 <= i < |keys| ensures keys[i] in primary || keys[i] in Register(included, primary, keys) {
        if i < |init| { assert init[i] == keys[i]; }
      }
    }
  }

  // ---- The pruned walk ----

  datatype Visited = Visited(key: Key, branch: Path)

  /** An earlier visit of this entry has completed: all it leads to is registered. */
  ghost predicate Settled(g: Graph, root: Tree, included: seq<Key>, primary: set<Key>, entry: Visited) {
    At(root, entry.branch).Some? ==> Known(included, primary, Visit(g, entry.key, At(root, entry.branch).value))
  }

  /** Visits deeper than the current branch have completed; unfinished ones are its ancestors. */
  ghost predicate SettledBelow(g: Graph, root: Tree, included: seq<Key>, primary: set<Key>, visited: set<Visited>,
                               depth: nat) {
    forall entry :: entry in visited && |entry.branch| > depth ==> Settled(g, root, included, primary, entry)
  }

  lemma SettledGrows(g: Graph, root: Tree, included: seq<Key>, more: seq<Key>, primary: set<Key>, visited: set<Visited>,
                     depth: nat)
    requires SettledBelow(g, root, included, primary, visited, depth)
    requires forall k :: k in included ==> k in more
    ensures SettledBelow(g, root, more, primary, visited, depth)
  {
    forall entry | entry in visited && |entry.branch| > depth ensures Settled(g, root, more, primary, entry) {
      assert Settled(g, root, included, primary, entry);
    }
  }

  /** After a visit has registered its resources, its own entry is settled as well. */
  lemma SettleEntry(g: Graph, root: Tree, before: seq<Key>, included: seq<Key>, primary: set<Key>,
                    earlier: set<Visited>, visited: set<Visited>, entry: Visited, depth: nat)
    requires At(root, entry.branch).Some? && |entry.branch| == depth + 1
    requires SettledBelow(g, root, before, primary, earlier, depth)
    requires included == Register(before, primary, Visit(g, entry.key, At(root, entry.branch).value))
    requires forall e :: e in visited && e !in earlier && e != entry ==> |e.branch| > depth + 1
    requires SettledBelow(g, root, included, primary, visited, depth + 1)
    ensures SettledBelow(g, root, included, primary, visited, depth)
  {
    var keys := Visit(g, entry.key, At(root, entry.branch).value);
    RegisterMembers(before, primary, keys);
    SettledGrows(g, root, before, included, primary, earlier, depth);
    forall e | e in visited && |e.branch| > depth ensures Settled(g, root, included, primary, e) {
      if e == entry {
        assert Known(included, primary, keys);
      }
    }
  }

  /** The remaining entries of a dict still map their names as the whole dict does. */
  predicate Suffix(items: Tree, tree: Tree)
  {
    forall name :: name in Names(items) ==> Child(items, name) == Child(tree, name)
  }

  lemma SuffixNext(items: Tree, tree: Tree)
    requires items.Branch? && WellFormed(items) && Suffix(items, tree)
    ensures Child(tree, items.name) == Some(items.sub) && Suffix(items.rest, tree)
  {
    assert Child(items, items.name) == Some(items.sub);
    forall name | name in Names(items.rest) ensures Child(items.rest, name) == Child(tree, name) {
      assert Child(items, name) == Child(items.rest, name);
    }
  }

  /** The state shared while one document is built. */
  class Context {
    const g: Graph
    const root: Tree
    const primary: set<Key>
    var included: seq<Key>
    var visited: set<Visited>

    constructor (g: Graph, root: Tree, primary: set<Key>)
      ensures this.g == g && this.root == root && this.primary == primary
      ensures included == [] && visited == {}
    {
      this.g, this.root, this.primary := g, root, primary;
      included, visited := [], {};
    }

    /** Registers the resource, then descends into every requested relationship, skipping
        (type, id, branch) triples met before. It registers exactly what the full walk would. */
    method SerializeResource(key: Key, tree: Tree, branch: Path, register: bool)
      requires At(root, branch) == Some(tree) && WellFormed(tree)
      requires SettledBelow(g, root, included, primary, visited, |branch|)
      modifies this
      ensures included == Register(old(included), primary, if register then Visit(g, key, tree) else Walk(g, key, tree))
      ensures old(visited) <= visited
      ensures forall entry :: entry in visited && entry !in old(visited) ==> |entry.branch| > |branch|
      ensures SettledBelow(g, root, included, primary, visited, |branch|)
      decreases tree, 1
    {
      ghost var goal := Register(included, primary, if register then Visit(g, key, tree) else Walk(g, key, tree));
      ghost var before := included;
      if register {
        RegisterAppend(included, primary, [key], Walk(g, key, tree));
        RegisterOne(included, primary, key);
        if key !in primary && key !in included {
          included := included + [key];
        }
      }
      SettledGrows(g, root, before, included, primary, visited, |branch|);
      var items := tree;
      while items.Branch?
        invariant items == tree || items < tree
        invariant WellFormed(items) && Suffix(items, tree)
        invariant Register(included, primary, Walk(g, key, items)) == goal
        invariant old(visited) <= visited
        invariant forall entry :: entry in visited && entry !in old(visited) ==> |entry.branch| > |branch|
        invariant SettledBelow(g, root, included, primary, visited, |branch|)
        decreases items
      {
        SuffixNext(items, tree);
        var keys := Related(g, key, items.name);
        RegisterAppend(included, primary, WalkEach(g, keys, items.sub), Walk(g, key, items.rest));
        VisitRelated(keys, items.sub, branch, items.name, tree);
        items := items.rest;
      }
    }

    /** The inner loop: one relationship's resources, each visited once per branch. */
    method VisitRelated(keys: seq<Key>, sub: Tree, branch: Path, name: string, ghost tree: Tree)
      requires At(root, branch) == Some(tree) && Child(tree, name) == Some(sub) && WellFormed(sub) && sub < tree
      requires SettledBelow(g, root, included, primary, visited, |branch|)
      modifies this
      ensures included == Register(old(included), primary, WalkEach(g, keys, sub))
      ensures old(visited) <= visited
      ensures forall entry :: entry in visited && entry !in old(visited) ==> |entry.branch| > |branch|
      ensures SettledBelow(g, root, included, primary, visited, |branch|)
      decreases sub, 2
    {
      hide Walk, Child, Known, WellFormed;
      var relationshipBranch := branch + [name];
      AtAppend(root, branch, name);
      for i := 0 to |keys|
        invariant included == Register(old(included), primary, WalkEach(g, keys[..i], sub))
        invariant old(visited) <= visited
        invariant forall entry :: entry in visited && entry !in old(visited) ==> |entry.branch| > |branch|
        invariant SettledBelow(g, root, included, primary, visited, |branch|)
      {
        assert keys[..i + 1][..i] == keys[..i];
        RegisterAppend(old(included), primary, WalkEach(g, keys[..i], sub), Visit(g, keys[i], sub));
        var entry := Visited(keys[i], relationshipBranch);
        if entry in visited {
          assert Settled(g, root, included, primary, entry);
          RegisterKnown(included, primary, Visit(g, keys[i], sub));
        } else {
          ghost var before, seen := included, visited;
          visited := visited + {entry};
          SerializeResource(keys[i], sub, relationshipBranch, true);
          SettleEntry(g, root, before, included, primary, seen, visited, entry, |branch|);
        }
      }
      assert keys[..|keys|] == keys;
    }
  }

  // ---- The document ----

  function WalkPrimaries(g: Graph, primaries: seq<Key>, tree: Tree): seq<Key>
    decreases |primaries|
  {
    if primaries == [] then []
    else WalkPrimaries(g, primaries[..|primaries| - 1], tree) + Walk(g, primaries[|primaries| - 1], tree)
  }

  /** Not one of the primary resources. */
  function Secondary(primary: set<Key>): Key -> bool {
    (key: Key) => key !in primary
  }

  /** The reference definition of `included`: walk everything, drop the primary resources, keep
      first occurrences. */
  function IncludedSpec(g: Graph, primaries: seq<Key>, tree: Tree): seq<Key> {
    Distinct(Filter(Secondary(set k | k in primaries), WalkPrimaries(g, primaries, tree)))
  }

  lemma {:induction false} RegisterIsDistinct(primary: set<Key>, keys: seq<Key>)
    ensures Register([], primary, keys) == Distinct(Filter(Secondary(primary), keys))
    decreases |keys|
  {
    if keys != [] {
      var init, key := keys[..|keys| - 1], keys[|keys| - 1];
      RegisterIsDistinct(primary, init);
      var kept := Filter(Secondary(primary), init);
      DistinctMembers(kept);
      if key !in primary {
        assert (kept + [key])[..|kept|] == kept;
      }
    }
  }

  /** Builds the compound document; `included` is exactly the reference definition. */
  method Document(g: Graph, primaries: seq<Key>, tree: Tree) returns (included: seq<Key>)
    requires WellFormed(tree)
    ensures included == IncludedSpec(g, primaries, tree)
  {
    var primary := set k | k in primaries;
    var context := new Context(g, tree, primary);
    for i := 0 to |primaries|
      invariant context.g == g && context.root == tree && context.primary == primary
      invariant context.included == Register([], primary, WalkPrimaries(g, primaries[..i], tree))
      invariant SettledBelow(g, tree, context.included, primary, context.visited, 0)
    {
      assert primaries[..i + 1][..i] == primaries[..i];
      RegisterAppend([], primary, WalkPrimaries(g, primaries[..i], tree), Walk(g, primaries[i], tree));
      context.SerializeResource(primaries[i], tree, [], false);
    }
    assert primaries[..|primaries|] == primaries;
    RegisterIsDistinct(primary, WalkPrimaries(g, primaries, tree));
    included := context.included;
  }

  // ---- What the document guarantees ----

  /** `key` occurs in some relationship of `source`. */
  predicate Links(g: Graph, source: Key, key: Key) {
    source in g && exists name :: name in g[source] && key in g[source][name]
  }

  /** A chain of links from one resource to another; after the first, every resource on it is one of
      `within`. */
  ghost predicate Chain(g: Graph, from: Key, to: Key, path: seq<Key>, within: seq<Key>) {
    && path != [] && path[0] == from && path[|path| - 1] == to
    && forall i :: 0 < i < |path| ==> Links(g, path[i - 1], path[i]) && path[i] in within
  }

  lemma ChainWiden(g: Graph, from: Key, to: Key, path: seq<Key>, within: seq<Key>, more: seq<Key>)
    requires Chain(g, from, to, path, within) && forall k :: k in within ==> k in more
    ensures Chain(g, from, to, path, more)
  {}

  lemma ChainPrepend(g: Graph, source: Key, from: Key, to: Key, path: seq<Key>, within: seq<Key>)
    requires Links(g, source, from) && from in within && Chain(g, from, to, path, within)
    ensures Chain(g, source, to, [source] + path, within)
  {
    var longer := [source] + path;
    forall i | 0 < i < |longer| ensures Links(g, longer[i - 1], longer[i]) && longer[i] in within {
      assert longer[i] == path[i - 1];
    }
  }

  /** Everything met below a resource is reached from it through resources met below it. */
  lemma {:induction false} WalkChain(g: Graph, key: Key, tree: Tree, x: Key) returns (path: seq<Key>)
    requires x in Walk(g, key, tree)
    ensures Chain(g, key, x, path, Walk(g, key, tree))
    decreases tree, 0
  {
    var name, sub, rest := tree.name, tree.sub, tree.rest;
    var related := Related(g, key, name);
    if x in Walk(g, key, rest) {
      path := WalkChain(g, key, rest, x);
      ChainWiden(g, key, x, path, Walk(g, key, rest), Walk(g, key, tree));
    } else {
      var start, tail := WalkEachChain(g, related, sub, x);
      assert Links(g, key, start);
      ChainWiden(g, start, x, tail, WalkEach(g, related, sub), Walk(g, key, tree));
      ChainPrepend(g, key, start, x, tail, Walk(g, key, tree));
      path := [key] + tail;
    }
  }

  lemma {:induction false} WalkEachChain(g: Graph, keys: seq<Key>, sub: Tree, x: Key)
    returns (start: Key, path: seq<Key>)
    requires x in WalkEach(g, keys, sub)
    ensures start in keys && start in WalkEach(g, keys, sub)
    ensures Chain(g, start, x, path, WalkEach(g, keys, sub))
    decreases sub, 1, |keys|
  {
    var init, last := keys[..|keys| - 1], keys[|keys| - 1];
    if x in WalkEach(g, init, sub) {
      start, path := WalkEachChain(g, init, sub, x);
      ChainWiden(g, start, x, path, WalkEach(g, init, sub), WalkEach(g, keys, sub));
    } else {
      start := last;
      assert last in Visit(g, last, sub);
      if x == last {
        path := [last];
      } else {
        assert x in Walk(g, last, sub);
        path := WalkChain(g, last, sub, x);
        ChainWiden(g, last, x, path, Walk(g, last, sub), WalkEach(g, keys, sub));
      }
    }
  }

  lemma {:induction false} WalkPrimariesChain(g: Graph, primaries: seq<Key>, tree: Tree, x: Key)
    returns (start: Key, path: seq<Key>)
    requires x in WalkPrimaries(g, primaries, tree)
    ensures start in primaries && Chain(g, start, x, path, WalkPrimaries(g, primaries, tree))
    decreases |primaries|
  {
    var init, last := primaries[..|primaries| - 1], primaries[|primaries| - 1];
    if x in WalkPrimaries(g, init, tree) {
      start, path := WalkPrimariesChain(g, init, tree, x);
      ChainWiden(g, start, x, path, WalkPrimaries(g, init, tree), WalkPrimaries(g, primaries, tree));
    } else {
      start := last;
      path := WalkChain(g, last, tree, x);
      ChainWiden(g, last, x, path, Walk(g, last, tree), WalkPrimaries(g, primaries, tree));
    }
  }

  /** Full linkage: a chain of links from primary data, all of it inside the document. */
  ghost predicate FullyLinked(g: Graph, primaries: seq<Key>, included: seq<Key>, x: Key) {
    exists start, path :: start in primaries && Chain(g, start, x, path, primaries + included)
  }

  /** The "Compound Documents" rules of JSON:API 1.1: every resource at most once, none of the included
      ones primary, and each identified via a chain of relationships originating in primary data, every
      resource of which is in the document. */
  lemma CompoundRules(g: Graph, primaries: seq<Key>, tree: Tree)
    ensures var included := IncludedSpec(g, primaries, tree);
            && (forall i, j :: 0 <= i < j < |included| ==> included[i] != included[j])
            && (forall x :: x in included ==> x !in primaries)
            && (forall x :: x in included ==> FullyLinked(g, primaries, included, x))
  {
    var primary := set k | k in primaries;
    var all := WalkPrimaries(g, primaries, tree);
    var included := IncludedSpec(g, primaries, tree);
    FilterMembers(Secondary(primary), all);
    DistinctMembers(Filter(Secondary(primary), all));
    DistinctUnique(Filter(Secondary(primary), all));
    assert forall k :: k in all ==> k in primaries || k in included;
    forall x | x in included ensures FullyLinked(g, primaries, included, x) {
      var start, path := WalkPrimariesChain(g, primaries, tree, x);
      ChainWiden(g, start, x, path, all, primaries + included);
    }
  }
}
