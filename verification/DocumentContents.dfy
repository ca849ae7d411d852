/** What a compound document contains, and in which order: everything the include paths lead to, as a
    depth-first traversal meets it. */
module DocumentContents {
  import opened Wrappers
  import opened Sorting
  import opened IncludeTree
  import opened Serializer
  import opened Loading

  // ---- Everything that is asked for ----

  /** A path of the include tree leads from the resource to x. */
  ghost predicate LeadsTo(g: Graph, from: Key, tree: Tree, b: Path, x: Key) {
    b != [] && At(tree, b).Some? && x in Reached(g, from, b)
  }

  ghost predicate AskedFor(g: Graph, from: Key, tree: Tree, x: Key) {
    exists b :: LeadsTo(g, from, tree, b, x)
  }

  lemma {:induction false} ReachedFirst(g: Graph, from: Key, name: string, path: Path, x: Key)
    ensures x in Reached(g, from, [name] + path)
            <==> exists k :: k in Related(g, from, name) && x in Reached(g, k, path)
    decreases |path|
  {
    var whole := [name] + path;
    if path == [] {
      assert whole[..0] == [] && Reached(g, from, []) == {from};
    } else {
      var init, last := path[..|path| - 1], path[|path| - 1];
      assert whole[..|whole| - 1] == [name] + init;
      forall mid ensures mid in Reached(g, from, [name] + init)
                         <==> exists k :: k in Related(g, from, name) && mid in Reached(g, k, init)
      {
        ReachedFirst(g, from, name, init, mid);
      }
    }
  }

  /** x is the related resource itself, or asked for below it. */
  ghost predicate AskedFrom(g: Graph, k: Key, sub: Tree, x: Key) {
    x == k || AskedFor(g, k, sub, x)
  }

  lemma AskedBelow(g: Graph, from: Key, tree: Tree, b: Path, x: Key)
    requires tree.Branch? && LeadsTo(g, from, tree, b, x)
    ensures (exists k :: k in Related(g, from, tree.name) && AskedFrom(g, k, tree.sub, x))
            || AskedFor(g, from, tree.rest, x)
  {
    assert b == [b[0]] + b[1..];
    ReachedFirst(g, from, b[0], b[1..], x);
    hide Related, Reached;
    if b[0] == tree.name {
      var k :| k in Related(g, from, tree.name) && x in Reached(g, k, b[1..]);
      if b[1..] == [] { OneStep(g, k, x); } else { assert LeadsTo(g, k, tree.sub, b[1..], x); }
    } else {
      assert LeadsTo(g, from, tree.rest, b, x);
    }
  }

  lemma OneStep(g: Graph, k: Key, x: Key)
    ensures x in Reached(g, k, []) <==> x == k
  {}

  lemma BelowIsAsked(g: Graph, from: Key, tree: Tree, k: Key, b: Path, x: Key)
    requires tree.Branch? && k in Related(g, from, tree.name)
    requires At(tree.sub, b).Some? && x in Reached(g, k, b)
    ensures AskedFor(g, from, tree, x)
  {
    ReachedFirst(g, from, tree.name, b, x);
    assert ([tree.name] + b)[1..] == b;
    assert LeadsTo(g, from, tree, [tree.name] + b, x);
  }

  lemma RestIsAsked(g: Graph, from: Key, tree: Tree, x: Key)
    requires tree.Branch? && WellFormed(tree) && AskedFor(g, from, tree.rest, x)
    ensures AskedFor(g, from, tree, x)
  {
    var b :| LeadsTo(g, from, tree.rest, b, x);
    hide Reached;
    ChildName(tree.rest, b[0]);
    assert LeadsTo(g, from, tree, b, x);
  }

  lemma AskedBranch(g: Graph, from: Key, tree: Tree, x: Key)
    requires tree.Branch? && WellFormed(tree)
    ensures AskedFor(g, from, tree, x)
            <==> (exists k :: k in Related(g, from, tree.name) && AskedFrom(g, k, tree.sub, x))
                 || AskedFor(g, from, tree.rest, x)
  {
    if AskedFor(g, from, tree, x) {
      var b :| LeadsTo(g, from, tree, b, x);
      AskedBelow(g, from, tree, b, x);
    }
    if k :| k in Related(g, from, tree.name) && AskedFrom(g, k, tree.sub, x) {
      OneStep(g, k, x);
      hide Related, Reached;
      if x == k {
        BelowIsAsked(g, from, tree, k, [], x);
      } else {
        var b :| LeadsTo(g, k, tree.sub, b, x);
        BelowIsAsked(g, from, tree, k, b, x);
      }
    }
    if AskedFor(g, from, tree.rest, x) { RestIsAsked(g, from, tree, x); }
  }

  lemma {:induction false} WalkIsAsked(g: Graph, key: Key, tree: Tree, x: Key)
    requires WellFormed(tree)
    ensures x in Walk(g, key, tree) <==> AskedFor(g, key, tree, x)
    decreases tree, 0
  {
    hide AskedFor;
    match tree
    case Leaf => NothingAsked(g, key, x);
    case Branch(name, sub, rest) =>
      EachIsAsked(g, Related(g, key, name), sub, x);
      WalkIsAsked(g, key, rest, x);
      AskedBranch(g, key, tree, x);
  }

  lemma NothingAsked(g: Graph, key: Key, x: Key)
    ensures !AskedFor(g, key, Leaf, x)
  {}

  lemma {:induction false} EachIsAsked(g: Graph, keys: seq<Key>, sub: Tree, x: Key)
    requires WellFormed(sub)
    ensures x in WalkEach(g, keys, sub) <==> exists k :: k in keys && AskedFrom(g, k, sub, x)
    decreases sub, 1, |keys|
  {
    hide AskedFor;
    if keys != [] {
      var init, last := keys[..|keys| - 1], keys[|keys| - 1];
      EachIsAsked(g, init, sub, x);
      WalkIsAsked(g, last, sub, x);
      assert last in keys && forall k :: k in keys <==> k in init || k == last;
      assert x in Visit(g, last, sub) <==> AskedFrom(g, last, sub, x);
    }
  }

  lemma {:induction false} PrimariesAsk(g: Graph, primaries: seq<Key>, tree: Tree, x: Key)
    requires WellFormed(tree)
    ensures x in WalkPrimaries(g, primaries, tree) <==> exists m :: m in primaries && AskedFor(g, m, tree, x)
    decreases |primaries|
  {
    hide AskedFor;
    if primaries != [] {
      var init, last := primaries[..|primaries| - 1], primaries[|primaries| - 1];
      PrimariesAsk(g, init, tree, x);
      WalkIsAsked(g, last, tree, x);
      assert forall m :: m in primaries <==> m in init || m == last;
    }
  }

  lemma IncludedMembers(g: Graph, primaries: seq<Key>, tree: Tree, x: Key)
    ensures x in IncludedSpec(g, primaries, tree) <==> x !in primaries && x in WalkPrimaries(g, primaries, tree)
  {
    var primary := set k | k in primaries;
    var all := WalkPrimaries(g, primaries, tree);
    FilterMembers(Secondary(primary), all);
    DistinctMembers(Filter(Secondary(primary), all));
  }

  /** A resource is included if and only if it is not primary and a node of the include tree leads to it from
      a primary resource. */
  lemma IncludedIsAsked(g: Graph, primaries: seq<Key>, tree: Tree, x: Key)
    requires WellFormed(tree)
    ensures x in IncludedSpec(g, primaries, tree)
            <==> x !in primaries && exists m, b :: m in primaries && LeadsTo(g, m, tree, b, x)
  {
    IncludedMembers(g, primaries, tree, x);
    PrimariesAsk(g, primaries, tree, x);
    hide IncludedSpec, WalkPrimaries, LeadsTo;
    if m, b :| m in primaries && LeadsTo(g, m, tree, b, x) {
      assert AskedFor(g, m, tree, x);
    }
  }

  // ---- In which order ----

  /** From one resource to another: which requested relationship is followed, and to which of its objects. */
  type Route = seq<(nat, nat)>

  /** The i-th requested relationship and what is requested below it. */
  function Nth(tree: Tree, i: nat): Option<(string, Tree)> {
    match tree
    case Leaf => None
    case Branch(name, sub, rest) => if i == 0 then Some((name, sub)) else Nth(rest, i - 1)
  }

  /** Where a route ends; None when there is no such relationship or object on the way. */
  function Arrive(g: Graph, key: Key, tree: Tree, route: Route): Option<Key>
    decreases |route|
  {
    if route == [] then Some(key)
    else
      var requested := Nth(tree, route[0].0);
      if requested.None? || route[0].1 >= |Related(g, key, requested.value.0)| then None
      else Arrive(g, Related(g, key, requested.value.0)[route[0].1], requested.value.1, route[1..])
  }

  /** A resource before what lies below it, relationships as requested, objects as listed. */
  predicate Earlier(a: Route, b: Route)
    decreases |a|
  {
    b != [] && (a == [] || a[0].0 < b[0].0 || (a[0].0 == b[0].0 && a[0].1 < b[0].1)
                || (a[0] == b[0] && Earlier(a[1..], b[1..])))
  }

  /** A route below the n-th of several resources. */
  type Stop = (nat, Route)

  predicate EarlierStop(a: Stop, b: Stop) {
    a.0 < b.0 || (a.0 == b.0 && Earlier(a.1, b.1))
  }

  ghost predicate Ascending<T(!new)>(earlier: (T, T) -> bool, s: seq<T>) {
    forall i, j :: 0 <= i < j < |s| ==> earlier(s[i], s[j])
  }

  /** The resource a route that leaves `key` ends at. */
  function Below(g: Graph, key: Key, tree: Tree, route: Route): Option<Key> {
    if route == [] then None else Arrive(g, key, tree, route)
  }

  /** The resource a stop stands for; primary resources themselves are none. */
  function StoppedAt(g: Graph, keys: seq<Key>, sub: Tree, primary: bool, stop: Stop): Option<Key> {
    if stop.0 >= |keys| then None
    else if primary then Below(g, keys[stop.0], sub, stop.1) else Arrive(g, keys[stop.0], sub, stop.1)
  }

  /** The list visits exactly the routes below a resource, in order. */
  ghost predicate Traverses(g: Graph, key: Key, tree: Tree, met: seq<Key>, routes: seq<Route>) {
    && |routes| == |met| && Ascending(Earlier, routes)
    && (forall k :: 0 <= k < |met| ==> Below(g, key, tree, routes[k]) == Some(met[k]))
    && (forall r: Route :: Below(g, key, tree, r).Some? ==> r in routes)
  }

  /** The list visits exactly the stops at several resources, in order. */
  ghost predicate TraversesAll(g: Graph, keys: seq<Key>, sub: Tree, primary: bool, met: seq<Key>, stops: seq<Stop>) {
    && |stops| == |met| && Ascending(EarlierStop, stops)
    && AllMet(g, keys, sub, primary, met, stops) && AllThere(g, keys, sub, primary, stops)
  }

  ghost predicate AllMet(g: Graph, keys: seq<Key>, sub: Tree, primary: bool, met: seq<Key>, stops: seq<Stop>) {
    |stops| == |met| && forall k :: 0 <= k < |met| ==> StoppedAt(g, keys, sub, primary, stops[k]) == Some(met[k])
  }

  ghost predicate AllThere(g: Graph, keys: seq<Key>, sub: Tree, primary: bool, stops: seq<Stop>) {
    forall stop: Stop :: StoppedAt(g, keys, sub, primary, stop).Some? ==> stop in stops
  }

  lemma AscendingAppend<T(!new)>(earlier: (T, T) -> bool, a: seq<T>, b: seq<T>)
    requires Ascending(earlier, a) && Ascending(earlier, b)
    requires forall x, y :: x in a && y in b ==> earlier(x, y)
    ensures Ascending(earlier, a + b)
  {
    forall i, j | 0 <= i < j < |a + b| ensures earlier((a + b)[i], (a + b)[j]) {
      if i < |a| <= j { assert a[i] in a && b[j - |a|] in b; }
    }
  }

  /** One more resource: itself, unless it is primary, and then the routes below it. */
  function StopsAt(n: nat, primary: bool, routes: seq<Route>): seq<Stop> {
    (if primary then [] else [(n, [])]) + seq(|routes|, k requires 0 <= k < |routes| => (n, routes[k]))
  }

  function MetAtOne(last: Key, primary: bool, more: seq<Key>): seq<Key> {
    (if primary then [] else [last]) + more
  }

  lemma OneAscends(n: nat, primary: bool, g: Graph, last: Key, sub: Tree, more: seq<Key>, routes: seq<Route>)
    requires Traverses(g, last, sub, more, routes)
    ensures Ascending(EarlierStop, StopsAt(n, primary, routes))
    ensures forall stop :: stop in StopsAt(n, primary, routes) ==> stop.0 == n
  {
    assert forall k :: 0 <= k < |routes| ==> routes[k] != [];
  }

  lemma OneIsMet(g: Graph, keys: seq<Key>, sub: Tree, primary: bool, last: Key, more: seq<Key>, routes: seq<Route>)
    requires Traverses(g, last, sub, more, routes)
    ensures AllMet(g, keys + [last], sub, primary, MetAtOne(last, primary, more), StopsAt(|keys|, primary, routes))
  {
    var stops, met := StopsAt(|keys|, primary, routes), MetAtOne(last, primary, more);
    forall k | 0 <= k < |met| ensures StoppedAt(g, keys + [last], sub, primary, stops[k]) == Some(met[k]) {
      StopIsMet(g, keys, sub, primary, last, more, routes, k);
    }
    hide Ascending, Related, Nth, StoppedAt, Below;
  }

  lemma StopIsMet(g: Graph, keys: seq<Key>, sub: Tree, primary: bool, last: Key, more: seq<Key>, routes: seq<Route>,
                  k: nat)
    requires Traverses(g, last, sub, more, routes) && k < |MetAtOne(last, primary, more)|
    ensures |StopsAt(|keys|, primary, routes)| == |MetAtOne(last, primary, more)|
    ensures StoppedAt(g, keys + [last], sub, primary, StopsAt(|keys|, primary, routes)[k])
            == Some(MetAtOne(last, primary, more)[k])
  {
    assert (keys + [last])[|keys|] == last;
    hide Ascending, Related, Nth;
    if primary || k > 0 {
      var r := if primary then k else k - 1;
      assert Below(g, last, sub, routes[r]) == Some(more[r]);
    }
  }

  lemma OneIsThere(g: Graph, keys: seq<Key>, sub: Tree, primary: bool, last: Key, more: seq<Key>, routes: seq<Route>,
                   stop: Stop)
    requires Traverses(g, last, sub, more, routes)
    requires stop.0 == |keys| && StoppedAt(g, keys + [last], sub, primary, stop).Some?
    ensures stop in StopsAt(|keys|, primary, routes)
  {
    hide Ascending, Arrive;
    var stops := StopsAt(|keys|, primary, routes);
    if stop.1 == [] {
      assert stops[0] == stop;
    } else {
      assert stop.1 in routes;
      var k :| 0 <= k < |routes| && routes[k] == stop.1;
      assert stops[if primary then k else k + 1] == stop;
    }
  }

  ghost predicate StopBefore(stops: seq<Stop>, n: nat) {
    forall stop :: stop in stops ==> stop.0 < n
  }

  lemma AscendMore(stops: seq<Stop>, own: seq<Stop>, n: nat)
    requires Ascending(EarlierStop, stops) && Ascending(EarlierStop, own)
    requires StopBefore(stops, n) && forall stop :: stop in own ==> stop.0 == n
    ensures Ascending(EarlierStop, stops + own) && StopBefore(stops + own, n + 1)
  {
    forall x, y | x in stops && y in own ensures EarlierStop(x, y) {}
    AscendingAppend(EarlierStop, stops, own);
  }

  lemma MetSame(g: Graph, keys: seq<Key>, last: Key, sub: Tree, primary: bool, stop: Stop)
    requires stop.0 < |keys|
    ensures StoppedAt(g, keys + [last], sub, primary, stop) == StoppedAt(g, keys, sub, primary, stop)
  {
    assert (keys + [last])[stop.0] == keys[stop.0];
  }

  lemma AllMetMore(g: Graph, keys: seq<Key>, sub: Tree, primary: bool, met: seq<Key>, stops: seq<Stop>, last: Key,
                   more: seq<Key>, own: seq<Stop>)
    requires AllMet(g, keys, sub, primary, met, stops) && StopBefore(stops, |keys|)
    requires AllMet(g, keys + [last], sub, primary, more, own)
    ensures AllMet(g, keys + [last], sub, primary, met + more, stops + own)
  {
    hide StoppedAt;
    forall k | 0 <= k < |met| ensures StoppedAt(g, keys + [last], sub, primary, stops[k]) == Some(met[k]) {
      MetSame(g, keys, last, sub, primary, stops[k]);
    }
  }

  lemma OneMore(g: Graph, keys: seq<Key>, sub: Tree, primary: bool, met: seq<Key>, stops: seq<Stop>, last: Key,
                more: seq<Key>, routes: seq<Route>)
    requires TraversesAll(g, keys, sub, primary, met, stops) && Traverses(g, last, sub, more, routes)
    requires StopBefore(stops, |keys|)
    ensures TraversesAll(g, keys + [last], sub, primary, met + MetAtOne(last, primary, more),
                         stops + StopsAt(|keys|, primary, routes))
    ensures StopBefore(stops + StopsAt(|keys|, primary, routes), |keys| + 1)
  {
    var own := StopsAt(|keys|, primary, routes);
    OneAscends(|keys|, primary, g, last, sub, more, routes);
    AscendMore(stops, own, |keys|);
    OneIsMet(g, keys, sub, primary, last, more, routes);
    AllMetMore(g, keys, sub, primary, met, stops, last, MetAtOne(last, primary, more), own);
    hide Traverses, StopsAt, MetAtOne, AllMet, Ascending, StopBefore;
    forall stop: Stop | StoppedAt(g, keys + [last], sub, primary, stop).Some? ensures stop in stops + own {
      if stop.0 < |keys| {
        MetSame(g, keys, last, sub, primary, stop);
      } else {
        OneIsThere(g, keys, sub, primary, last, more, routes, stop);
      }
    }
  }

  // ---- The walk is that traversal ----

  /** The routes of a branch: through its first relationship, then through the others. */
  function FirstRoutes(stops: seq<Stop>): seq<Route> {
    seq(|stops|, k requires 0 <= k < |stops| => [(0, stops[k].0)] + stops[k].1)
  }

  function OtherRoutes(routes: seq<Route>): seq<Route> {
    seq(|routes|, k requires 0 <= k < |routes| =>
      if routes[k] == [] then [] else [(routes[k][0].0 + 1, routes[k][0].1)] + routes[k][1..])
  }

  lemma FirstBelow(g: Graph, key: Key, tree: Tree, j: nat, route: Route)
    requires tree.Branch?
    ensures Below(g, key, tree, [(0, j)] + route)
            == StoppedAt(g, Related(g, key, tree.name), tree.sub, false, (j, route))
  {
    assert ([(0, j)] + route)[1..] == route;
  }

  lemma OtherBelow(g: Graph, key: Key, tree: Tree, i: nat, j: nat, route: Route)
    requires tree.Branch?
    ensures Below(g, key, tree, [(i + 1, j)] + route) == Below(g, key, tree.rest, [(i, j)] + route)
  {
    assert ([(i + 1, j)] + route)[1..] == route && ([(i, j)] + route)[1..] == route;
  }

  lemma FirstAscend(stops: seq<Stop>)
    requires Ascending(EarlierStop, stops)
    ensures Ascending(Earlier, FirstRoutes(stops))
    ensures forall r: Route :: r in FirstRoutes(stops) ==> r != [] && r[0].0 == 0
  {
    var routes := FirstRoutes(stops);
    forall i, j | 0 <= i < j < |routes| ensures Earlier(routes[i], routes[j]) {
      assert routes[i][1..] == stops[i].1 && routes[j][1..] == stops[j].1;
    }
  }

  lemma OtherAscend(routes: seq<Route>)
    requires Ascending(Earlier, routes) && forall k :: 0 <= k < |routes| ==> routes[k] != []
    ensures Ascending(Earlier, OtherRoutes(routes))
    ensures forall r: Route :: r in OtherRoutes(routes) ==> r != [] && r[0].0 > 0
  {
    var others := OtherRoutes(routes);
    forall i, j | 0 <= i < j < |others| ensures Earlier(others[i], others[j]) {
      assert others[i][1..] == routes[i][1..] && others[j][1..] == routes[j][1..];
    }
  }

  lemma BranchAscends(stops: seq<Stop>, routes: seq<Route>)
    requires Ascending(EarlierStop, stops)
    requires Ascending(Earlier, routes) && forall k :: 0 <= k < |routes| ==> routes[k] != []
    ensures Ascending(Earlier, FirstRoutes(stops) + OtherRoutes(routes))
  {
    FirstAscend(stops);
    OtherAscend(routes);
    forall x, y | x in FirstRoutes(stops) && y in OtherRoutes(routes) ensures Earlier(x, y) {}
    AscendingAppend(Earlier, FirstRoutes(stops), OtherRoutes(routes));
  }

  lemma BranchIsMet(g: Graph, key: Key, tree: Tree, each: seq<Key>, stops: seq<Stop>, rest: seq<Key>,
                    routes: seq<Route>, k: nat)
    requires tree.Branch? && AllMet(g, Related(g, key, tree.name), tree.sub, false, each, stops)
    requires Traverses(g, key, tree.rest, rest, routes) && k < |each + rest|
    ensures Below(g, key, tree, (FirstRoutes(stops) + OtherRoutes(routes))[k]) == Some((each + rest)[k])
  {
    hide Ascending;
    if k < |each| {
      FirstBelow(g, key, tree, stops[k].0, stops[k].1);
    } else {
      var route := routes[k - |each|];
      assert Below(g, key, tree.rest, route) == Some(rest[k - |each|]);
      assert route == [route[0]] + route[1..];
      OtherBelow(g, key, tree, route[0].0, route[0].1, route[1..]);
    }
  }

  lemma FirstIsThere(g: Graph, key: Key, tree: Tree, stops: seq<Stop>, j: nat, tail: Route)
    requires tree.Branch? && AllThere(g, Related(g, key, tree.name), tree.sub, false, stops)
    requires Below(g, key, tree, [(0, j)] + tail).Some?
    ensures [(0, j)] + tail in FirstRoutes(stops)
  {
    FirstBelow(g, key, tree, j, tail);
    hide Arrive, StoppedAt, Below;
    var k :| 0 <= k < |stops| && stops[k] == (j, tail);
    assert FirstRoutes(stops)[k] == [(0, j)] + tail;
  }

  lemma OtherIsThere(g: Graph, key: Key, tree: Tree, rest: seq<Key>, routes: seq<Route>, i: nat, j: nat, tail: Route)
    requires tree.Branch? && Traverses(g, key, tree.rest, rest, routes)
    requires Below(g, key, tree, [(i + 1, j)] + tail).Some?
    ensures [(i + 1, j)] + tail in OtherRoutes(routes)
  {
    OtherBelow(g, key, tree, i, j, tail);
    hide Arrive, Below, Ascending;
    var before := [(i, j)] + tail;
    assert before in routes && before[1..] == tail;
    hide Traverses;
    var k :| 0 <= k < |routes| && routes[k] == before;
    assert OtherRoutes(routes)[k] == [(i + 1, j)] + tail;
  }

  lemma BranchIsThere(g: Graph, key: Key, tree: Tree, stops: seq<Stop>, rest: seq<Key>, routes: seq<Route>,
                      route: Route)
    requires tree.Branch? && AllThere(g, Related(g, key, tree.name), tree.sub, false, stops)
    requires Traverses(g, key, tree.rest, rest, routes) && Below(g, key, tree, route).Some?
    ensures route in FirstRoutes(stops) + OtherRoutes(routes)
  {
    hide Arrive, AllThere, Traverses, FirstRoutes, OtherRoutes;
    var i, j, tail := route[0].0, route[0].1, route[1..];
    assert route == [(i, j)] + tail;
    if i == 0 {
      FirstIsThere(g, key, tree, stops, j, tail);
    } else {
      OtherIsThere(g, key, tree, rest, routes, i - 1, j, tail);
    }
  }

  lemma {:induction false} WalkTraverses(g: Graph, key: Key, tree: Tree) returns (routes: seq<Route>)
    ensures Traverses(g, key, tree, Walk(g, key, tree), routes)
    decreases tree, 0
  {
    match tree
    case Leaf => routes := [];
    case Branch(name, sub, rest) =>
      var related := Related(g, key, name);
      var stops := EachTraverses(g, related, sub);
      var others := WalkTraverses(g, key, rest);
      routes := FirstRoutes(stops) + OtherRoutes(others);
      var each, below := WalkEach(g, related, sub), Walk(g, key, rest);
      BranchAscends(stops, others);
      forall k | 0 <= k < |each + below| ensures Below(g, key, tree, routes[k]) == Some((each + below)[k]) {
        BranchIsMet(g, key, tree, each, stops, below, others, k);
      }
      forall r: Route | Below(g, key, tree, r).Some? ensures r in routes {
        BranchIsThere(g, key, tree, stops, below, others, r);
      }
  }

  lemma NothingTraversed(g: Graph, sub: Tree, primary: bool)
    ensures TraversesAll(g, [], sub, primary, [], []) && StopBefore([], 0)
  {
    hide Arrive;
  }

  lemma {:induction false} EachTraverses(g: Graph, keys: seq<Key>, sub: Tree) returns (stops: seq<Stop>)
    ensures TraversesAll(g, keys, sub, false, WalkEach(g, keys, sub), stops) && StopBefore(stops, |keys|)
    decreases sub, 1, |keys|
  {
    hide TraversesAll, Traverses, StopBefore, Walk;
    if keys == [] {
      stops := [];
      NothingTraversed(g, sub, false);
    } else {
      var init, last := keys[..|keys| - 1], keys[|keys| - 1];
      var before := EachTraverses(g, init, sub);
      var routes := WalkTraverses(g, last, sub);
      OneMore(g, init, sub, false, WalkEach(g, init, sub), before, last, Walk(g, last, sub), routes);
      stops := before + StopsAt(|init|, false, routes);
      assert init + [last] == keys;
    }
  }

  lemma {:induction false} PrimariesTraverse(g: Graph, primaries: seq<Key>, tree: Tree) returns (stops: seq<Stop>)
    ensures TraversesAll(g, primaries, tree, true, WalkPrimaries(g, primaries, tree), stops)
    ensures StopBefore(stops, |primaries|)
    decreases |primaries|
  {
    hide TraversesAll, Traverses, StopBefore, Walk;
    if primaries == [] {
      stops := [];
      NothingTraversed(g, tree, true);
    } else {
      var init, last := primaries[..|primaries| - 1], primaries[|primaries| - 1];
      var before := PrimariesTraverse(g, init, tree);
      var routes := WalkTraverses(g, last, tree);
      OneMore(g, init, tree, true, WalkPrimaries(g, init, tree), before, last, Walk(g, last, tree), routes);
      stops := before + StopsAt(|init|, true, routes);
      assert MetAtOne(last, true, Walk(g, last, tree)) == Walk(g, last, tree);
      assert init + [last] == primaries;
    }
  }

  // ---- The order of the document ----

  /** Among the kept elements, each first occurrence comes before every occurrence of a later one. */
  lemma {:induction false} KeptInOrder<R(!new)>(keep: R -> bool, s: seq<R>, a: nat, b: nat) returns (i: nat)
    requires a < b < |Distinct(Filter(keep, s))|
    ensures i < |s| && s[i] == Distinct(Filter(keep, s))[a]
    ensures forall j :: 0 <= j < |s| && s[j] == Distinct(Filter(keep, s))[b] ==> i < j
    decreases |s|
  {
    var init, last := s[..|s| - 1], s[|s| - 1];
    var kept := Filter(keep, init);
    FilterMembers(keep, init);
    DistinctMembers(kept);
    assert keep(last) ==> (kept + [last])[..|kept|] == kept;
    if b < |Distinct(kept)| {
      i := KeptInOrder(keep, init, a, b);
    } else {
      var x := Distinct(kept)[a];
      assert x in Distinct(kept) && x in init;
      i :| 0 <= i < |init| && init[i] == x;
    }
  }

  /** Of two included resources the first is the one that a depth-first traversal of the include paths meets
      first: the relationships as requested, the objects as listed, a resource before what lies below it. */
  lemma DocumentIsDepthFirst(g: Graph, primaries: seq<Key>, tree: Tree, a: nat, b: nat) returns (first: Stop)
    requires a < b < |IncludedSpec(g, primaries, tree)|
    ensures
      var included := IncludedSpec(g, primaries, tree);
      && StoppedAt(g, primaries, tree, true, first) == Some(included[a])
      && forall stop: Stop ::
         StoppedAt(g, primaries, tree, true, stop) == Some(included[b]) ==> EarlierStop(first, stop)
  {
    var all, keep := WalkPrimaries(g, primaries, tree), Secondary(set k | k in primaries);
    var stops := PrimariesTraverse(g, primaries, tree);
    hide WalkPrimaries, StoppedAt, Filter, Distinct, EarlierStop, Secondary;
    var i := KeptInOrder(keep, all, a, b);
    first := stops[i];
    forall stop: Stop | StoppedAt(g, primaries, tree, true, stop) == Some(IncludedSpec(g, primaries, tree)[b])
      ensures EarlierStop(first, stop)
    {
      var j :| 0 <= j < |stops| && stops[j] == stop;
      assert all[j] == IncludedSpec(g, primaries, tree)[b];
    }
  }

  // ---- The order of the include tree ----

  function NameList(tree: Tree): seq<string> {
    match tree
    case Leaf => []
    case Branch(name, _, rest) => [name] + NameList(rest)
  }

  /** What the paths that go on below q ask for there, one after the other. */
  function Asked(paths: seq<Path>, q: Path): seq<string>
    decreases |paths|
  {
    if paths == [] then []
    else
      var before, last := Asked(paths[..|paths| - 1], q), paths[|paths| - 1];
      if q < last then before + [last[|q|]] else before
  }

  function AddName(names: seq<string>, name: string): seq<string> {
    if name in names then names else names + [name]
  }

  lemma {:induction false} InsertTop(tree: Tree, path: Path)
    requires path != []
    ensures NameList(IncludeTree.Insert(tree, path)) == AddName(NameList(tree), path[0])
    decreases tree
  {
    match tree
    case Leaf => assert NameList(IncludeTree.Insert(Leaf, path)) == [path[0]] + NameList(Leaf);
    case Branch(name, sub, rest) => if name != path[0] { InsertTop(rest, path); }
  }

  /** The names at a node; none where there is no node. */
  function NamesAt(tree: Tree, q: Path): seq<string> {
    if At(tree, q).Some? then NameList(At(tree, q).value) else []
  }

  function Sub(tree: Tree, name: string): Tree {
    if Child(tree, name).Some? then Child(tree, name).value else Leaf
  }

  lemma NamesBelow(tree: Tree, q: Path)
    requires q != []
    ensures NamesAt(tree, q) == NamesAt(Sub(tree, q[0]), q[1..])
  {
    assert At(Leaf, q[1..]).Some? ==> NameList(At(Leaf, q[1..]).value) == [];
  }

  lemma PrefixBelow(q: Path, path: Path)
    requires q != [] && path != []
    ensures q < path <==> q[0] == path[0] && q[1..] < path[1..]
    ensures q < path ==> path[|q|] == path[1..][|q[1..]|]
  {
    assert q == [q[0]] + q[1..] && path == [path[0]] + path[1..];
  }

  lemma {:induction false} InsertNames(tree: Tree, path: Path, q: Path)
    ensures NamesAt(IncludeTree.Insert(tree, path), q)
            == if q < path then AddName(NamesAt(tree, q), path[|q|]) else NamesAt(tree, q)
    decreases |q|
  {
    if path == [] {
    } else if q == [] {
      InsertTop(tree, path);
    } else {
      var inserted := IncludeTree.Insert(tree, path);
      NamesBelow(tree, q);
      NamesBelow(inserted, q);
      PrefixBelow(q, path);
      InsertChild(tree, path, q[0]);
      if q[0] == path[0] { InsertNames(Sub(tree, q[0]), path[1..], q[1..]); }
      hide NamesAt, AddName, IncludeTree.Insert, Child;
    }
  }

  /** At every node the tree lists what the paths ask for there, in the order in which it is first asked. */
  lemma {:induction false} TreeKeepsOrder(paths: seq<Path>, q: Path)
    ensures NamesAt(InsertAll(Leaf, paths), q) == Distinct(Asked(paths, q))
    decreases |paths|
  {
    if paths != [] {
      var init, last := paths[..|paths| - 1], paths[|paths| - 1];
      TreeKeepsOrder(init, q);
      InsertNames(InsertAll(Leaf, init), last, q);
      DistinctMembers(Asked(init, q));
      assert q < last ==> Asked(paths, q)[..|Asked(paths, q)| - 1] == Asked(init, q);
    }
  }
}
