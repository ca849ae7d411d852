/** Include paths as an ordered tree of relationship names. */
module IncludeTree {
  import opened Wrappers

  type Path = seq<string>

  /** A Python dict in insertion order: a name, its subtree, the remaining entries. */
  datatype Tree = Leaf | Branch(name: string, sub: Tree, rest: Tree)

  function Names(t: Tree): set<string> {
    match t
    case Leaf => {}
    case Branch(name, _, rest) => {name} + Names(rest)
  }

  /** Dict keys are unique at every level. */
  predicate WellFormed(t: Tree) {
    match t
    case Leaf => true
    case Branch(name, sub, rest) => name !in Names(rest) && WellFormed(sub) && WellFormed(rest)
  }

  function Child(t: Tree, name: string): Option<Tree> {
    match t
    case Leaf => None
    case Branch(n, sub, rest) => if n == name then Some(sub) else Child(rest, name)
  }

  /** The subtree a path leads to; None when the path is not a node. */
  function At(t: Tree, path: Path): Option<Tree>
    decreases |path|
  {
    if path == [] then Some(t)
    else
      var child := Child(t, path[0]);
      if child.None? then None else At(child.value, path[1..])
  }

  /** `cursor = cursor.setdefault(segment, {})`, segment by segment. */
  function Insert(t: Tree, path: Path): Tree
    decreases |path|, t
  {
    if path == [] then t
    else
      match t
      case Leaf => Branch(path[0], Insert(Leaf, path[1..]), Leaf)
      case Branch(name, sub, rest) =>
        if name == path[0] then Branch(name, Insert(sub, path[1..]), rest)
        else Branch(name, sub, Insert(rest, path))
  }

  function InsertAll(t: Tree, paths: seq<Path>): Tree
    decreases |paths|
  {
    if paths == [] then t else Insert(InsertAll(t, paths[..|paths| - 1]), paths[|paths| - 1])
  }

  /** An empty or blank segment is an error. */
  method BuildIncludeTree(paths: seq<Path>, blank: string -> bool) returns (tree: Option<Tree>)
    ensures tree.None? <==> exists path, segment :: path in paths && segment in path && blank(segment)
    ensures tree.Some? ==> tree.value == InsertAll(Leaf, paths)
  {
    var built := Leaf;
    for i := 0 to |paths|
      invariant built == InsertAll(Leaf, paths[..i])
      invariant forall path, segment :: path in paths[..i] && segment in path ==> !blank(segment)
    {
      if exists segment :: segment in paths[i] && blank(segment) {
        return None;
      }
      built := Insert(built, paths[i]);
      assert paths[..i + 1][..i] == paths[..i];
    }
    assert paths[..|paths|] == paths;
    return Some(built);
  }

  lemma {:induction false} InsertChild(t: Tree, path: Path, name: string)
    requires path != []
    ensures Child(Insert(t, path), name)
            == if name != path[0] then Child(t, name)
               else Some(Insert(if Child(t, name).Some? then Child(t, name).value else Leaf, path[1..]))
    decreases t
  {
    match t
    case Leaf =>
    case Branch(_, _, rest) => InsertChild(rest, path, name);
  }

  lemma {:induction false} ChildName(t: Tree, name: string)
    ensures Child(t, name).Some? <==> name in Names(t)
  {
    match t
    case Leaf =>
    case Branch(_, _, rest) => ChildName(rest, name);
  }

  lemma {:induction false} InsertWellFormed(t: Tree, path: Path)
    requires WellFormed(t)
    ensures WellFormed(Insert(t, path))
    ensures path != [] ==> Names(Insert(t, path)) == Names(t) + {path[0]}
    decreases |path|, t
  {
    if path != [] {
      match t
      case Leaf => InsertWellFormed(Leaf, path[1..]);
      case Branch(name, sub, rest) =>
        InsertWellFormed(sub, path[1..]);
        InsertWellFormed(rest, path);
    }
  }

  /** Inserting a path adds exactly its prefixes. */
  lemma {:induction false} InsertAdds(t: Tree, path: Path, q: Path)
    ensures At(Insert(t, path), q).Some? <==> At(t, q).Some? || q <= path
    decreases |q|
  {
    if q != [] && path != [] {
      InsertChild(t, path, q[0]);
      if q[0] == path[0] {
        var sub := if Child(t, q[0]).Some? then Child(t, q[0]).value else Leaf;
        InsertAdds(sub, path[1..], q[1..]);
        assert q <= path <==> q[1..] <= path[1..];
        assert Child(t, q[0]).None? && |q| > 1 ==> At(sub, q[1..]).None?;
      }
    }
  }

  /** The tree's nodes are exactly the prefixes of the requested paths, and its keys are unique. */
  lemma {:induction false} TreeIsPrefixClosure(paths: seq<Path>, q: Path)
    ensures WellFormed(InsertAll(Leaf, paths))
    ensures At(InsertAll(Leaf, paths), q).Some? <==> q == [] || exists i :: 0 <= i < |paths| && q <= paths[i]
    decreases |paths|
  {
    if paths != [] {
      var init, last := paths[..|paths| - 1], paths[|paths| - 1];
      TreeIsPrefixClosure(init, q);
      InsertWellFormed(InsertAll(Leaf, init), last);
      InsertAdds(InsertAll(Leaf, init), last, q);
      assert forall i :: 0 <= i < |init| ==> paths[i] == init[i];
    } else if q != [] {
      assert Child(Leaf, q[0]).None?;
    }
  }

  lemma {:induction false} AtAppend(t: Tree, path: Path, name: string)
    ensures At(t, path + [name])
            == if At(t, path).None? then None else Child(At(t, path).value, name)
    decreases |path|
  {
    if path == [] {
      assert (path + [name])[1..] == [];
    } else {
      assert (path + [name])[1..] == path[1..] + [name];
      var child := Child(t, path[0]);
      if child.Some? { AtAppend(child.value, path[1..], name); }
    }
  }
}
