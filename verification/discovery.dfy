/** Resource discovery (`gatherResources` in cmd_resources.go): a pre-order walk of a
    fetched repository that yields one `Resource` per directory whose manifest loads.

    The file system is an abstract finite tree of directories. Children are listed in the
    order the walk visits them (Go's walk sorts directory entries by name). Plain files
    are not represented: the walk visits them but never emits anything for them. */
module Discovery {
  import opened Wrappers
  import opened Text
  import opened Manifests

  /** A directory: its name, the state of its `__resource.lua`, whether its entries can be
      listed, and its sub-directories in walk order. */
  datatype Node = Node(name: string, source: ScriptSource, readable: bool, children: seq<Node>)

  /** A discovered resource: directory base name, path and loaded manifest. */
  datatype Resource = Resource(name: string, path: string, manifest: Manifest)

  /** The outcome of a walk: what it emitted and whether it reached its end. */
  datatype Walked = Walked(found: seq<Resource>, complete: bool)

  /** `filepath.Join(dir, name)` for a clean `dir` and a plain entry name. */
  function JoinPath(dir: string, name: string): string {
    dir + "/" + name
  }

  /** What the walk callback emits for a listable directory at `path`. */
  function VisitDir(n: Node, path: string): seq<Resource> {
    match OpenManifest(n.source)
    case Success(m) => [Resource(Base(path), path, m)]
    case Failure(_) => []
  }

  /** Walks the tree rooted at `n`. An unlistable directory is handed to the callback with
      its error; the callback returns that error, which ends the whole walk. */
  function Walk(n: Node, path: string): (r: Walked)
    ensures Named(r.found)
    decreases n
  {
    if !n.readable then Walked([], false)
    else
      var sub := WalkChildren(n.children, path);
      NamedAppend(VisitDir(n, path), sub.found);
      Walked(VisitDir(n, path) + sub.found, sub.complete)
  }

  /** Walks sibling directories in order, stopping at the first aborted sub-walk. */
  function WalkChildren(cs: seq<Node>, dir: string): (r: Walked)
    ensures Named(r.found)
    decreases cs
  {
    if cs == [] then Walked([], true)
    else
      var w := Walk(cs[0], JoinPath(dir, cs[0].name));
      if !w.complete then w
      else
        var rest := WalkChildren(cs[1..], dir);
        NamedAppend(w.found, rest.found);
        Walked(w.found + rest.found, rest.complete)
  }

  /** Every resource is named after the final element of its path. */
  predicate Named(rs: seq<Resource>) {
    forall i :: 0 <= i < |rs| ==> rs[i].name == Base(rs[i].path)
  }

  lemma NamedAppend(a: seq<Resource>, b: seq<Resource>)
    requires Named(a) && Named(b)
    ensures Named(a + b)
  {
    forall i | 0 <= i < |a + b| ensures (a + b)[i].name == Base((a + b)[i].path) {
      if i >= |a| {
        assert (a + b)[i] == b[i - |a|];
      }
    }
  }

  /** A directory together with the path the walk reaches it under. */
  datatype Entry = Entry(path: string, node: Node)

  /** Every directory of the tree, parents before children, siblings in order. */
  function Preorder(n: Node, path: string): seq<Entry>
    decreases n
  {
    [Entry(path, n)] + PreorderAll(n.children, path)
  }

  function PreorderAll(cs: seq<Node>, dir: string): seq<Entry>
    decreases cs
  {
    if cs == [] then [] else Preorder(cs[0], JoinPath(dir, cs[0].name)) + PreorderAll(cs[1..], dir)
  }

  predicate AllReadable(es: seq<Entry>) {
    forall i :: 0 <= i < |es| ==> es[i].node.readable
  }

  /** The entries a walk reaches: those before the first unlistable directory. */
  function Reached(es: seq<Entry>): (r: seq<Entry>)
    ensures r <= es
    ensures AllReadable(r)
    ensures |r| < |es| ==> !es[|r|].node.readable
    ensures AllReadable(es) ==> r == es
  {
    if es == [] || !es[0].node.readable then [] else [es[0]] + Reached(es[1..])
  }

  /** The resources emitted for a sequence of reached entries. */
  function Emit(es: seq<Entry>): seq<Resource> {
    if es == [] then [] else VisitDir(es[0].node, es[0].path) + Emit(es[1..])
  }

  lemma {:induction false} EmitAppend(a: seq<Entry>, b: seq<Entry>)
    ensures Emit(a + b) == Emit(a) + Emit(b)
    decreases |a|
  {
    if a == [] {
      assert a + b == b;
    } else {
      assert (a + b)[0] == a[0];
      assert (a + b)[1..] == a[1..] + b;
      EmitAppend(a[1..], b);
    }
  }

  lemma {:induction false} ReachedAppend(a: seq<Entry>, b: seq<Entry>)
    ensures AllReadable(a) ==> Reached(a + b) == a + Reached(b)
    ensures !AllReadable(a) ==> Reached(a + b) == Reached(a)
    ensures AllReadable(a + b) <==> AllReadable(a) && AllReadable(b)
    decreases |a|
  {
    AllReadableAppend(a, b);
    if a == [] {
      assert a + b == b;
    } else {
      assert AllReadable(a) <==> a[0].node.readable && AllReadable(a[1..]) by {
        assert [a[0]] + a[1..] == a;
        AllReadableAppend([a[0]], a[1..]);
      }
      assert (a + b)[0] == a[0];
      if a[0].node.readable {
        assert Reached(a + b) == [a[0]] + Reached(a[1..] + b) by {
          assert (a + b)[1..] == a[1..] + b;
        }
        ReachedAppend(a[1..], b);
        if AllReadable(a[1..]) {
          assert [a[0]] + (a[1..] + Reached(b)) == a + Reached(b);
        } else {
          assert Reached(a) == [a[0]] + Reached(a[1..]);
        }
      } else {
        assert Reached(a + b) == [] == Reached(a);
      }
    }
  }

  lemma AllReadableAppend(a: seq<Entry>, b: seq<Entry>)
    ensures AllReadable(a + b) <==> AllReadable(a) && AllReadable(b)
  {
    if AllReadable(a) && AllReadable(b) {
      forall i | 0 <= i < |a + b| ensures (a + b)[i].node.readable {
        if i < |a| {
          assert (a + b)[i] == a[i];
        } else {
          assert (a + b)[i] == b[i - |a|];
        }
      }
    }
    if AllReadable(a + b) {
      forall i | 0 <= i < |a| ensures a[i].node.readable {
        assert (a + b)[i] == a[i];
      }
      forall i | 0 <= i < |b| ensures b[i].node.readable {
        assert (a + b)[i + |a|] == b[i];
      }
    }
  }

  /** The recursive walk emits exactly the resources of the directories a pre-order
      traversal reaches before the first unlistable one, and completes exactly when every
      directory is listable. */
  lemma {:induction false} WalkIsPreorder(n: Node, path: string)
    ensures Walk(n, path).found == Emit(Reached(Preorder(n, path)))
    ensures Walk(n, path).complete <==> AllReadable(Preorder(n, path))
    decreases n
  {
    var head := [Entry(path, n)];
    var tail := PreorderAll(n.children, path);
    ReachedAppend(head, tail);
    if n.readable {
      WalkChildrenIsPreorder(n.children, path);
      EmitAppend(head, Reached(tail));
      assert Emit(head) == VisitDir(n, path);
    } else {
      assert Reached(Preorder(n, path)) == [];
    }
  }

  lemma {:induction false} WalkChildrenIsPreorder(cs: seq<Node>, dir: string)
    ensures WalkChildren(cs, dir).found == Emit(Reached(PreorderAll(cs, dir)))
    ensures WalkChildren(cs, dir).complete <==> AllReadable(PreorderAll(cs, dir))
    decreases cs
  {
    if cs != [] {
      var first := Preorder(cs[0], JoinPath(dir, cs[0].name));
      var rest := PreorderAll(cs[1..], dir);
      WalkIsPreorder(cs[0], JoinPath(dir, cs[0].name));
      ReachedAppend(first, rest);
      if AllReadable(first) {
        WalkChildrenIsPreorder(cs[1..], dir);
        EmitAppend(first, Reached(rest));
      }
    }
  }

  /** Every emitted resource comes from a reached entry whose manifest loaded, and is
      named after the final element of that entry's path. */
  lemma {:induction false} EmitSound(es: seq<Entry>, r: Resource)
    requires r in Emit(es)
    ensures exists i :: 0 <= i < |es| && es[i].path == r.path && OpenManifest(es[i].node.source) == Success(r.manifest)
    ensures r.name == Base(r.path)
    decreases |es|
  {
    if r in VisitDir(es[0].node, es[0].path) {
      assert es[0].path == r.path;
    } else {
      EmitSound(es[1..], r);
      var i :| 0 <= i < |es[1..]| && es[1..][i].path == r.path && OpenManifest(es[1..][i].node.source) == Success(r.manifest);
      assert es[i + 1] == es[1..][i];
    }
  }

  /** `gatherResources`: the resources of the tree rooted at `root`, in walk order: those
      of the directories a pre-order traversal reaches before the first unlistable one. */
  function Gather(root: Node, rootPath: string): (r: seq<Resource>)
    ensures Named(r)
  {
    Walk(root, rootPath).found
  }

  /** The walk gathers exactly what the pre-order traversal reaches, in that order. */
  lemma GatherIsPreorder(root: Node, rootPath: string)
    ensures Gather(root, rootPath) == Emit(Reached(Preorder(root, rootPath)))
  {
    WalkIsPreorder(root, rootPath);
  }

  /** Every gathered resource is named after the final element of its path and comes from
      a listable directory of the tree whose manifest loaded to exactly its manifest. */
  lemma GatherSound(root: Node, rootPath: string, r: Resource)
    requires r in Gather(root, rootPath)
    ensures r.name == Base(r.path)
    ensures exists i :: 0 <= i < |Preorder(root, rootPath)| && Preorder(root, rootPath)[i].path == r.path
                     && Preorder(root, rootPath)[i].node.readable
                     && OpenManifest(Preorder(root, rootPath)[i].node.source) == Success(r.manifest)
  {
    GatherIsPreorder(root, rootPath);
    var es := Reached(Preorder(root, rootPath));
    EmitSound(es, r);
    var i :| 0 <= i < |es| && es[i].path == r.path && OpenManifest(es[i].node.source) == Success(r.manifest);
    assert es[i] == Preorder(root, rootPath)[i];
  }

  /** No directory name below the root contains a slash. */
  predicate PlainNames(cs: seq<Node>)
    decreases cs
  {
    forall i :: 0 <= i < |cs| ==> '/' !in cs[i].name && PlainNames(cs[i].children)
  }

  /** Every entry's path ends in the entry's own directory name. */
  predicate NamedByPath(es: seq<Entry>) {
    forall i :: 0 <= i < |es| ==> Base(es[i].path) == es[i].node.name
  }

  lemma NamedByPathAppend(a: seq<Entry>, b: seq<Entry>)
    requires NamedByPath(a) && NamedByPath(b)
    ensures NamedByPath(a + b)
  {
    forall i | 0 <= i < |a + b| ensures Base((a + b)[i].path) == (a + b)[i].node.name {
      if i >= |a| {
        assert (a + b)[i] == b[i - |a|];
      }
    }
  }

  /** Below the root, every directory is reached under a path whose final element is its
      own name, so a resource found there is named after its directory. */
  lemma {:induction false} ChildPathsEndInName(cs: seq<Node>, dir: string)
    requires PlainNames(cs)
    ensures NamedByPath(PreorderAll(cs, dir))
    decreases cs
  {
    if cs != [] {
      var p := JoinPath(dir, cs[0].name);
      assert PlainNames(cs[1..]) by {
        assert forall i :: 0 <= i < |cs[1..]| ==> cs[1..][i] == cs[i + 1];
      }
      BaseOfJoin(dir, cs[0].name);
      ChildPathsEndInName(cs[0].children, p);
      ChildPathsEndInName(cs[1..], dir);
      NamedByPathAppend([Entry(p, cs[0])], PreorderAll(cs[0].children, p));
      NamedByPathAppend(Preorder(cs[0], p), PreorderAll(cs[1..], dir));
    }
  }
}
