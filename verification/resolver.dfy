/** The package resolver of cmd_resources.go: the local root a package URI maps to, the
    clone-or-update decision, and the recursive `addPackage` that fetches a repository,
    discovers its resources and resolves every repository they name as a dependency.

    Version control and the file system are abstract: for every local root the `World`
    says what `dirExists`, clone, status and pull report and which directory tree the
    root then holds. The world does not change while a resolution runs. */
module Resolver {
  import opened Wrappers
  import opened Seqs
  import opened Text
  import opened Manifests
  import opened Discovery

  /** The package name of a URI: its final `/` element, cut at the first `.`, lower-cased. */
  function PackageName(uri: string): string {
    Lower(Split(Base(uri), '.')[0])
  }

  /** A package name is a lower-case piece of the URI's final element without `/` or `.`. */
  lemma PackageNameShape(uri: string)
    ensures '/' !in PackageName(uri) && '.' !in PackageName(uri)
    ensures IsLower(PackageName(uri))
    ensures |PackageName(uri)| <= |Base(uri)|
  {
    var piece := Split(Base(uri), '.')[0];
    SplitFirstIsPrefix(Base(uri), '.');
    LowerKeeps(piece, '/');
    LowerKeeps(piece, '.');
  }

  /** Lower-casing neither adds nor removes a character that is not a letter. */
  lemma LowerKeeps(s: string, c: char)
    requires !('A' <= c <= 'Z') && !('a' <= c <= 'z')
    ensures c in Lower(s) <==> c in s
  {
    if c in Lower(s) {
      var i :| 0 <= i < |s| && Lower(s)[i] == c;
      assert s[i] == c;
    }
    if c in s {
      var i :| 0 <= i < |s| && s[i] == c;
      assert Lower(s)[i] == c;
    }
  }

  /** The first piece of a split is the part of `s` before the first separator. */
  lemma SplitFirstIsPrefix(s: string, sep: char)
    ensures Split(s, sep)[0] <= s
    ensures |Split(s, sep)[0]| < |s| ==> s[|Split(s, sep)[0]|] == sep
  {
  }

  /** The local root `resources/[<package name>]` a URI is fetched into. */
  function PackageRoot(uri: string): string {
    RootDir(PackageName(uri))
  }

  /** The directory under `resources/` that holds the package called `name`. */
  function RootDir(name: string): string {
    "resources" + "/" + "[" + name + "]"
  }

  /** The local root lies directly in `resources/` and its final element is the package
      name in square brackets. */
  lemma PackageRootShape(uri: string)
    ensures |PackageRoot(uri)| == |"resources/[]"| + |PackageName(uri)|
    ensures PackageRoot(uri)[..10] == "resources/"
    ensures Base(PackageRoot(uri)) == "[" + PackageName(uri) + "]"
  {
    PackageNameShape(uri);
    RootDirShape(PackageName(uri));
  }

  /** `RootDir(name)` is `resources/` followed by the bracketed name, which is its final
      element when the name holds no slash. */
  lemma RootDirShape(name: string)
    requires '/' !in name
    ensures |RootDir(name)| == |"resources/[]"| + |name|
    ensures RootDir(name)[..10] == "resources/"
    ensures Base(RootDir(name)) == "[" + name + "]"
  {
    var dir := "[" + name + "]";
    assert dir[0] == '[' && dir[|dir| - 1] == ']' && dir[1..|dir| - 1] == name;
    assert '/' !in dir;
    assert RootDir(name) == "resources" + "/" + dir;
    BaseOfJoin("resources", dir);
  }

  /** Lower-casing commutes with cutting at the first `.`. */
  lemma FirstPieceLower(s: string)
    ensures Split(Lower(s), '.')[0] == Lower(Split(s, '.')[0])
  {
    if '.' in s {
      var i := IndexOf(s, '.');
      assert Lower(s)[i] == '.';
      assert Lower(s)[..i] == Lower(s[..i]);
      assert '.' !in Lower(s)[..i];
      IndexOfFirst(Lower(s), '.', i);
    } else {
      LowerKeeps(s, '.');
    }
  }

  /** A URI and its lower-cased form name the same package, so they share a local root. */
  lemma PackageNameIgnoresCase(uri: string)
    ensures PackageName(Lower(uri)) == PackageName(uri)
    ensures PackageRoot(Lower(uri)) == PackageRoot(uri)
  {
    BaseLower(uri);
    FirstPieceLower(Base(uri));
    var piece := Split(Base(uri), '.')[0];
    assert Lower(Lower(piece)) == Lower(piece);
  }

  /** For example, the package at `https://example.test/pack.git` has the local root
      `resources/[pack]`. */
  lemma PackageRootExample()
    ensures PackageRoot("https://example.test/pack.git") == RootDir("pack")
    ensures RootDir("pack") == "resources/[pack]"
  {
    ExampleName();
    RootDirExample();
  }

  lemma RootDirExample()
    ensures RootDir("pack") == "resources/[pack]"
  {
  }

  lemma ExampleName()
    ensures PackageName("https://example.test/pack.git") == "pack"
  {
    ExampleBase();
    ExampleCut();
    ExampleLower();
  }

  lemma ExampleBase()
    ensures Base("https://example.test/pack.git") == "pack.git"
  {
    assert "https://example.test/pack.git" == "https://example.test" + "/" + "pack.git";
    BaseOfJoin("https://example.test", "pack.git");
  }

  lemma ExampleCut()
    ensures Split("pack.git", '.')[0] == "pack"
  {
    assert "pack.git" == "pack" + ['.'] + "git";
    SplitFirstPiece("pack", '.', "git");
  }

  lemma ExampleLower()
    ensures Lower("pack") == "pack"
  {
  }

  /** What `dirExists` finds at the local root. */
  datatype DirState = Absent | Directory | NotDirectory | StatFailed(message: string)

  /** What opening the repository and asking for its work-tree status gives. */
  datatype Status = OpenFailed(message: string) | StatusFailed(message: string) | Status(clean: bool)

  /** What `git pull` reports. */
  datatype PullResult = Pulled | AlreadyUpToDate | PullFailed(message: string)

  /** Everything the version-control and file-system calls report for one local root,
      and the directory tree the root holds once it has been cloned or pulled. */
  datatype Checkout = Checkout(state: DirState, clone: Outcome<string>, status: Status, pull: PullResult, tree: Node)

  datatype FetchError =
    | StatError(message: string)
    | NotADirectory
    | CloneError(message: string)
    | OpenError(message: string)
    | StatusError(message: string)
    | Dirty
    | PullError(message: string)
      /** The recursion ran past its fuel: stands for the unbounded recursion of a cyclic
          dependency graph. */
    | Diverged

  /** `fetchRepo` after the repository has been opened: a dirty work tree stops the
      update unless forced; a pull that finds nothing new is not an error. */
  function FetchRepo(status: Status, pull: PullResult, force: bool): (r: Outcome<FetchError>)
    ensures status == Status(false) && !force ==> r == Fail(Dirty)
    ensures r.Pass? <==> status.Status? && (status.clean || force) && !pull.PullFailed?
    ensures r.Fail? && r.error.PullError? ==> pull.PullFailed? && status.Status? && (status.clean || force)
  {
    match status
    case OpenFailed(msg) => Fail(OpenError(msg))
    case StatusFailed(msg) => Fail(StatusError(msg))
    case Status(clean) =>
      if !clean && !force then Fail(Dirty)
      else if pull.PullFailed? then Fail(PullError(pull.message))
      else Pass
  }

  /** A dirty, unforced update fails the same way whatever the pull would have done:
      the refusal comes before any pull. */
  lemma DirtyRefusalPrecedesPull(p1: PullResult, p2: PullResult)
    ensures FetchRepo(Status(false), p1, false) == FetchRepo(Status(false), p2, false) == Fail(Dirty)
  {
  }

  /** The existence check of `addPackage` followed by clone or update. */
  function Sync(co: Checkout, force: bool): (r: Outcome<FetchError>)
    ensures co.state.Absent? ==> (r.Pass? <==> co.clone.Pass?)
    ensures co.state.Directory? ==> r == FetchRepo(co.status, co.pull, force)
    ensures co.state.NotDirectory? || co.state.StatFailed? ==> r.Fail? && !r.error.Dirty?
  {
    match co.state
    case StatFailed(msg) => Fail(StatError(msg))
    case NotDirectory => Fail(NotADirectory)
    case Directory => FetchRepo(co.status, co.pull, force)
    case Absent => if co.clone.Fail? then Fail(CloneError(co.clone.error)) else Pass
  }

  /** Every `dependency_url` value of the resources, in resource and recording order. */
  function DependencyUrls(rs: seq<Resource>): (r: seq<string>)
    ensures forall d :: d in r <==> exists i :: 0 <= i < |rs| && d in GetAll(rs[i].manifest, "dependency_url")
  {
    if rs == [] then []
    else
      var rest := DependencyUrls(rs[1..]);
      assert forall i :: 1 <= i < |rs| ==> rs[i] == rs[1..][i - 1];
      GetAll(rs[0].manifest, "dependency_url") + rest
  }

  /** The elements of `s` that occur in `keep`, in order. */
  function Filter(s: seq<string>, keep: seq<string>): (r: seq<string>)
    ensures Elems(r) == Elems(s) * Elems(keep)
    ensures (forall i :: 0 <= i < |s| ==> s[i] in keep) ==> r == s
  {
    if s == [] then []
    else
      assert Elems(s) == {s[0]} + Elems(s[1..]) by { assert s == [s[0]] + s[1..]; }
      var head := if s[0] in keep then [s[0]] else [];
      var rest := Filter(s[1..], keep);
      assert Elems(head + rest) == Elems(head) + Elems(rest);
      head + rest
  }

  /** The order in which a Go map holding the set `Elems(deps)` is ranged over. Go leaves
      it unspecified; `preferred` is an arbitrary proposal, normalised here into an
      enumeration of the set without repetition. */
  function Enumerate(preferred: seq<string>, deps: seq<string>): (r: seq<string>)
    ensures NoDup(r)
    ensures Elems(r) == Elems(deps)
  {
    var head := Dedup(Filter(preferred, deps));
    var r := head + DedupAfter(deps, head);
    assert Elems(r) == Elems(head) + Elems(DedupAfter(deps, head));
    r
  }

  /** Every duplicate-free enumeration of the dependency set is a possible order. */
  lemma EnumerateAny(preferred: seq<string>, deps: seq<string>)
    requires NoDup(preferred) && Elems(preferred) == Elems(deps)
    ensures Enumerate(preferred, deps) == preferred
  {
    FilterAll(preferred, deps);
    DedupOfNoDup(preferred);
    assert forall i :: 0 <= i < |deps| ==> deps[i] in preferred by {
      forall i | 0 <= i < |deps| ensures deps[i] in preferred {
        assert deps[i] in Elems(deps);
      }
    }
  }

  lemma FilterAll(s: seq<string>, keep: seq<string>)
    requires Elems(s) <= Elems(keep)
    ensures Filter(s, keep) == s
  {
    forall i | 0 <= i < |s| ensures s[i] in keep {
      assert s[i] in Elems(s);
    }
  }

  lemma DedupOfNoDup(s: seq<string>)
    requires NoDup(s)
    ensures Dedup(s) == s
  {
    assert [] + s == s;
    DedupAfterNoDup(s, []);
  }

  /** The environment of a resolution. `checkout` answers for every local root; `order`
      proposes the order in which the repository at a URI ranges over its dependency set. */
  datatype World = World(checkout: string -> Checkout, order: (string, seq<string>) -> seq<string>)

  /** The distinct dependency URIs of `own`, in the order `addPackage` resolves them. */
  function DependencyOrder(w: World, uri: string, own: seq<Resource>): (r: seq<string>)
    ensures NoDup(r)
    ensures Elems(r) == Elems(DependencyUrls(own))
  {
    Enumerate(w.order(uri, DependencyUrls(own)), DependencyUrls(own))
  }

  /** What one `addPackage` call finds before it recurses: the repository's own
      resources and the dependency URIs it goes on to resolve, in order. */
  datatype Fetched = Fetched(own: seq<Resource>, deps: seq<string>)

  /** The non-recursive part of `addPackage(uri, force)`: clone or update the repository
      at the package's local root, gather its resources and order its dependencies. */
  function Fetch(uri: string, force: bool, w: World): Result<Fetched, FetchError> {
    var root := PackageRoot(uri);
    var co := w.checkout(root);
    var synced := Sync(co, force);
    if synced.Fail? then Failure(synced.error)
    else
      var own := Gather(co.tree, root);
      Success(Fetched(own, DependencyOrder(w, uri, own)))
  }

  /** The resources `addPackage` gathers in the repository of `uri` itself. */
  function OwnResources(uri: string, w: World): seq<Resource> {
    Gather(w.checkout(PackageRoot(uri)).tree, PackageRoot(uri))
  }

  /** A fetch succeeds exactly when the clone or update does; it then holds the
      repository's own resources and every distinct dependency URI exactly once, and
      otherwise the clone or update error. */
  lemma FetchSpec(uri: string, force: bool, w: World)
    ensures Fetch(uri, force, w).Success? <==> Sync(w.checkout(PackageRoot(uri)), force).Pass?
    ensures Fetch(uri, force, w).Failure? ==>
      Fetch(uri, force, w).error == Sync(w.checkout(PackageRoot(uri)), force).error
    ensures Fetch(uri, force, w).Success? ==>
      && Fetch(uri, force, w).value.own == OwnResources(uri, w)
      && NoDup(Fetch(uri, force, w).value.deps)
      && Elems(Fetch(uri, force, w).value.deps) == Elems(DependencyUrls(OwnResources(uri, w)))
  {
  }

  /** A step answers for a URI what `Fetch` answers. */
  type Step = string -> Result<Fetched, FetchError>

  /** The step of a resolution in world `w`. */
  function StepIn(force: bool, w: World): Step {
    u => Fetch(u, force, w)
  }

  /** `addPackage(uri, force)` in world `w`. */
  function Resolve(uri: string, force: bool, w: World, fuel: nat): (r: Result<seq<Resource>, FetchError>)
    ensures r.Success? ==>
      && fuel > 0
      && Sync(w.checkout(PackageRoot(uri)), force).Pass?
      && IsSuffix(OwnResources(uri, w), r.value)
  {
    FetchSpec(uri, force, w);
    ResolveBy(StepIn(force, w), uri, fuel)
  }

  /** The recursion of `addPackage` over any step: fetch, then resolve every dependency
      in turn. Each recursive call spends one unit of `fuel`. */
  function ResolveBy(step: Step, uri: string, fuel: nat): (r: Result<seq<Resource>, FetchError>)
    ensures fuel == 0 ==> r == Failure(Diverged)
    ensures r.Success? ==> fuel > 0 && step(uri).Success? && IsSuffix(step(uri).value.own, r.value)
    decreases fuel, 0, 0
  {
    if fuel == 0 then Failure(Diverged)
    else
      match step(uri)
      case Failure(e) => Failure(e)
      case Success(f) => ResolveDeps(step, f.deps, fuel - 1, f.own)
  }

  /** The outcome of resolving each URI of `deps` on its own. */
  function Results(step: Step, deps: seq<string>, fuel: nat): (rs: seq<Result<seq<Resource>, FetchError>>)
    ensures |rs| == |deps|
    decreases fuel, 0, |deps| + 1
  {
    if deps == [] then [] else [ResolveBy(step, deps[0], fuel)] + Results(step, deps[1..], fuel)
  }

  /** What folding the dependency loop over per-dependency `results` gives, starting
      from `acc`: success exactly when every result is a success, in which case `acc`
      ends the list and every result's list lies as a block in front of `acc`; otherwise
      the error of the first failed result. */
  predicate Folded(results: seq<Result<seq<Resource>, FetchError>>, acc: seq<Resource>,
                   r: Result<seq<Resource>, FetchError>)
  {
    && (r.Success? <==> forall i :: 0 <= i < |results| ==> results[i].Success?)
    && (r.Success? ==> IsSuffix(acc, r.value))
    && (r.Success? ==> forall i :: 0 <= i < |results| ==> BlockBefore(results[i].value, r.value, acc))
    && (r.Failure? ==>
          exists i :: 0 <= i < |results| && results[i] == Failure(r.error)
            && forall j :: 0 <= j < i ==> results[j].Success?)
  }

  /** The dependency loop of `addPackage`: resolves each URI in turn and puts its list in
      front of everything gathered so far; the first failure ends the loop. */
  function ResolveDeps(step: Step, deps: seq<string>, fuel: nat, acc: seq<Resource>)
    : (r: Result<seq<Resource>, FetchError>)
    ensures r.Success? ==> IsSuffix(acc, r.value)
    decreases fuel, 1, |deps|
  {
    if deps == [] then Success(acc)
    else
      match ResolveBy(step, deps[0], fuel)
      case Failure(e) => Failure(e)
      case Success(list) =>
        var r := ResolveDeps(step, deps[1..], fuel, list + acc);
        assert r.Success? ==> IsSuffix(acc, r.value) by {
          if r.Success? {
            SuffixSplit(r.value, list, acc);
          }
        }
        r
  }

  /** The dependency loop is a fold of the per-dependency results. */
  lemma {:induction false} ResolveDepsFolded(step: Step, deps: seq<string>, fuel: nat, acc: seq<Resource>)
    ensures Folded(Results(step, deps, fuel), acc, ResolveDeps(step, deps, fuel, acc))
    decreases |deps|
  {
    var results := Results(step, deps, fuel);
    var r := ResolveDeps(step, deps, fuel, acc);
    if deps != [] {
      assert results[0] == ResolveBy(step, deps[0], fuel);
      match ResolveBy(step, deps[0], fuel)
      case Failure(e) =>
        assert r == Failure(e);
      case Success(list) =>
        ResolveDepsFolded(step, deps[1..], fuel, list + acc);
        assert results[1..] == Results(step, deps[1..], fuel);
        FoldedStep(results, acc, list, r);
    }
  }

  /** One turn of the dependency loop: a first result `Success(list)` followed by a fold
      of the rest started from `list + acc` is a fold of all results started from `acc`. */
  lemma FoldedStep(results: seq<Result<seq<Resource>, FetchError>>, acc: seq<Resource>,
                   list: seq<Resource>, r: Result<seq<Resource>, FetchError>)
    requires results != [] && results[0] == Success(list)
    requires Folded(results[1..], list + acc, r)
    ensures Folded(results, acc, r)
  {
    assert forall i :: 1 <= i < |results| ==> results[i] == results[1..][i - 1];
    if r.Success? {
      var s := r.value;
      SuffixSplit(s, list, acc);
      forall i | 1 <= i < |results| ensures BlockBefore(results[i].value, s, acc) {
        BlockBeforeShorterTail(results[i].value, s, list, acc);
      }
    } else {
      var i :| 0 <= i < |results[1..]| && results[1..][i] == Failure(r.error)
        && forall j :: 0 <= j < i ==> results[1..][j].Success?;
      assert results[i + 1] == Failure(r.error);
    }
  }

  /** On a successful fold every result succeeded. */
  lemma FoldedSuccess(results: seq<Result<seq<Resource>, FetchError>>, acc: seq<Resource>,
                      r: Result<seq<Resource>, FetchError>, i: nat)
    requires Folded(results, acc, r) && r.Success? && i < |results|
    ensures results[i].Success?
  {
  }

  /** A failed fold names the first failed result. */
  lemma FoldedFailure(results: seq<Result<seq<Resource>, FetchError>>, acc: seq<Resource>,
                      r: Result<seq<Resource>, FetchError>) returns (i: nat)
    requires Folded(results, acc, r) && r.Failure?
    ensures i < |results| && results[i] == Failure(r.error)
    ensures forall j :: 0 <= j < i ==> results[j].Success?
  {
    i :| 0 <= i < |results| && results[i] == Failure(r.error)
      && forall j :: 0 <= j < i ==> results[j].Success?;
  }

  /** A suffix `list + acc` makes `acc` a suffix and `list` a block in front of it. */
  lemma SuffixSplit<T>(s: seq<T>, list: seq<T>, acc: seq<T>)
    requires IsSuffix(list + acc, s)
    ensures IsSuffix(acc, s)
    ensures BlockBefore(list, s, acc)
  {
    var k := |s| - |list + acc|;
    assert s[k..] == list + acc;
    assert s[|s| - |acc|..] == s[k..][|list|..];
    assert list <= s[k..];
  }

  /** A block that lies before `list + acc` also lies before `acc`. */
  lemma BlockBeforeShorterTail<T>(part: seq<T>, s: seq<T>, list: seq<T>, acc: seq<T>)
    requires BlockBefore(part, s, list + acc)
    ensures BlockBefore(part, s, acc)
  {
    var j :| 0 <= j <= |s| - |part| - |list + acc| && part <= s[j..];
    assert 0 <= j <= |s| - |part| - |acc|;
  }

  /** The `i`-th outcome is that of resolving the `i`-th URI. */
  lemma {:induction false} ResultsAt(step: Step, deps: seq<string>, fuel: nat, i: nat)
    requires i < |deps|
    ensures Results(step, deps, fuel)[i] == ResolveBy(step, deps[i], fuel)
    decreases i
  {
    if i > 0 {
      ResultsAt(step, deps[1..], fuel, i - 1);
    }
  }

  /** Every URI of `ds` resolves on its own. */
  predicate AllResolve(step: Step, ds: seq<string>, fuel: nat) {
    forall d :: d in ds ==> ResolveBy(step, d, fuel).Success?
  }

  /** The dependency loop succeeds exactly when every dependency resolves on its own. */
  lemma ResolveDepsSucceedsIff(step: Step, deps: seq<string>, fuel: nat, acc: seq<Resource>)
    ensures ResolveDeps(step, deps, fuel, acc).Success? <==> AllResolve(step, deps, fuel)
  {
    var r := ResolveDeps(step, deps, fuel, acc);
    var rs := Results(step, deps, fuel);
    ResolveDepsFolded(step, deps, fuel, acc);
    if r.Success? {
      forall d | d in deps ensures ResolveBy(step, d, fuel).Success? {
        var i :| 0 <= i < |deps| && deps[i] == d;
        FoldedSuccess(rs, acc, r, i);
        ResultsAt(step, deps, fuel, i);
      }
    } else {
      var i := FoldedFailure(rs, acc, r);
      ResultsAt(step, deps, fuel, i);
      assert deps[i] in deps;
    }
  }

  /** On success, each dependency's own list lies as one block in front of `acc`. */
  lemma ResolveDepsBlock(step: Step, deps: seq<string>, fuel: nat, acc: seq<Resource>, d: string)
    requires d in deps
    ensures ResolveDeps(step, deps, fuel, acc).Success? ==>
      && ResolveBy(step, d, fuel).Success?
      && BlockBefore(ResolveBy(step, d, fuel).value, ResolveDeps(step, deps, fuel, acc).value, acc)
  {
    var r := ResolveDeps(step, deps, fuel, acc);
    if r.Success? {
      var i :| 0 <= i < |deps| && deps[i] == d;
      var rs := Results(step, deps, fuel);
      ResolveDepsFolded(step, deps, fuel, acc);
      FoldedSuccess(rs, acc, r, i);
      ResultsAt(step, deps, fuel, i);
    }
  }

  /** On failure, the error is that of the first dependency that fails on its own. */
  lemma ResolveDepsFirstFailure(step: Step, deps: seq<string>, fuel: nat, acc: seq<Resource>)
      returns (i: nat)
    ensures ResolveDeps(step, deps, fuel, acc).Failure? ==>
      && i < |deps|
      && ResolveBy(step, deps[i], fuel) == Failure(ResolveDeps(step, deps, fuel, acc).error)
      && forall j :: 0 <= j < i ==> ResolveBy(step, deps[j], fuel).Success?
  {
    var r := ResolveDeps(step, deps, fuel, acc);
    i := 0;
    if r.Failure? {
      var rs := Results(step, deps, fuel);
      ResolveDepsFolded(step, deps, fuel, acc);
      i := FoldedFailure(rs, acc, r);
      ResultsAt(step, deps, fuel, i);
      forall j | 0 <= j < i ensures ResolveBy(step, deps[j], fuel).Success? {
        ResultsAt(step, deps, fuel, j);
      }
    }
  }

  /** Resolution succeeds exactly when the fetch succeeds and every dependency it names
      resolves in turn. */
  lemma ResolveSucceedsIff(step: Step, uri: string, fuel: nat)
    requires fuel > 0
    ensures ResolveBy(step, uri, fuel).Success? <==>
      step(uri).Success? && AllResolve(step, step(uri).value.deps, fuel - 1)
  {
    if step(uri).Success? {
      ResolveDepsSucceedsIff(step, step(uri).value.deps, fuel - 1, step(uri).value.own);
    }
  }

  /** On failure with fuel to spare after a good fetch, the error is that of the first
      dependency, in resolution order, that fails on its own. */
  lemma ResolveFirstFailure(step: Step, uri: string, fuel: nat) returns (i: nat)
    requires fuel > 0 && step(uri).Success?
    ensures ResolveBy(step, uri, fuel).Failure? ==>
      && i < |step(uri).value.deps|
      && ResolveBy(step, step(uri).value.deps[i], fuel - 1) == Failure(ResolveBy(step, uri, fuel).error)
      && forall j :: 0 <= j < i ==> ResolveBy(step, step(uri).value.deps[j], fuel - 1).Success?
  {
    i := ResolveDepsFirstFailure(step, step(uri).value.deps, fuel - 1, step(uri).value.own);
  }

  /** Dependency-first order: on success the repository's own resources end the list, and
      the list of every dependency lies as one block in front of them. */
  lemma DependenciesFirst(step: Step, uri: string, fuel: nat)
    requires ResolveBy(step, uri, fuel).Success?
    ensures fuel > 0 && step(uri).Success?
    ensures IsSuffix(step(uri).value.own, ResolveBy(step, uri, fuel).value)
    ensures forall d :: d in step(uri).value.deps ==>
      && ResolveBy(step, d, fuel - 1).Success?
      && BlockBefore(ResolveBy(step, d, fuel - 1).value, ResolveBy(step, uri, fuel).value, step(uri).value.own)
  {
    var f := step(uri).value;
    ResolveDepsFolded(step, f.deps, fuel - 1, f.own);
    forall d | d in f.deps
      ensures ResolveBy(step, d, fuel - 1).Success?
      ensures BlockBefore(ResolveBy(step, d, fuel - 1).value, ResolveBy(step, uri, fuel).value, f.own)
    {
      ResolveDepsBlock(step, f.deps, fuel - 1, f.own, d);
    }
  }

  /** A failed dependency fails the whole resolution: no partial list is returned. */
  lemma DependencyFailureIsFatal(step: Step, uri: string, fuel: nat, d: string)
    requires fuel > 0 && step(uri).Success?
    requires d in step(uri).value.deps
    requires ResolveBy(step, d, fuel - 1).Failure?
    ensures ResolveBy(step, uri, fuel).Failure?
  {
    ResolveSucceedsIff(step, uri, fuel);
  }

  /** The lists of `deps`, each resolved on its own, the last one first: the order in
      which prepending leaves them. A URI that fails contributes nothing. */
  function Stacked(step: Step, deps: seq<string>, fuel: nat): seq<Resource> {
    if deps == [] then []
    else
      var first := ResolveBy(step, deps[0], fuel);
      Stacked(step, deps[1..], fuel) + (if first.Success? then first.value else [])
  }

  /** A successful dependency loop leaves the dependencies' lists in reverse resolution
      order in front of `acc`. */
  lemma {:induction false} ResolveDepsStacks(step: Step, deps: seq<string>, fuel: nat, acc: seq<Resource>)
    ensures ResolveDeps(step, deps, fuel, acc).Success? ==>
      ResolveDeps(step, deps, fuel, acc).value == Stacked(step, deps, fuel) + acc
    decreases |deps|
  {
    if deps != [] {
      var first := ResolveBy(step, deps[0], fuel);
      if first.Success? {
        ResolveDepsStacks(step, deps[1..], fuel, first.value + acc);
        assert Stacked(step, deps[1..], fuel) + (first.value + acc)
            == (Stacked(step, deps[1..], fuel) + first.value) + acc;
      }
    }
  }

  /** On success, the list is that of every dependency, the one resolved last first,
      followed by the repository's own resources in discovery order. With a single
      dependency `d` that is the list of `d` followed by the own resources. */
  lemma ResolveStacks(step: Step, uri: string, fuel: nat)
    requires ResolveBy(step, uri, fuel).Success?
    ensures fuel > 0 && step(uri).Success?
    ensures ResolveBy(step, uri, fuel).value == Stacked(step, step(uri).value.deps, fuel - 1) + step(uri).value.own
    ensures |step(uri).value.deps| == 1 ==>
      && ResolveBy(step, step(uri).value.deps[0], fuel - 1).Success?
      && ResolveBy(step, uri, fuel).value == ResolveBy(step, step(uri).value.deps[0], fuel - 1).value + step(uri).value.own
  {
    var f := step(uri).value;
    ResolveDepsStacks(step, f.deps, fuel - 1, f.own);
    if |f.deps| == 1 {
      ResolveSucceedsIff(step, uri, fuel);
      assert f.deps[0] in f.deps;
      assert f.deps[1..] == [];
    }
  }

  /** More fuel changes nothing once a resolution has ended without running out: the fuel
      bound only cuts off recursion that would not have ended. */
  lemma {:induction false} ResolveFuelMonotone(step: Step, uri: string, fuel: nat)
    ensures ResolveBy(step, uri, fuel) != Failure(Diverged) ==>
      ResolveBy(step, uri, fuel + 1) == ResolveBy(step, uri, fuel)
    decreases fuel, 0, 0
  {
    if fuel > 0 && step(uri).Success? {
      ResolveDepsFuelMonotone(step, step(uri).value.deps, fuel - 1, step(uri).value.own);
    }
  }

  /** The same for the dependency loop. */
  lemma {:induction false} ResolveDepsFuelMonotone(step: Step, deps: seq<string>, fuel: nat, acc: seq<Resource>)
    ensures ResolveDeps(step, deps, fuel, acc) != Failure(Diverged) ==>
      ResolveDeps(step, deps, fuel + 1, acc) == ResolveDeps(step, deps, fuel, acc)
    decreases fuel, 1, |deps|
  {
    if deps != [] {
      ResolveFuelMonotone(step, deps[0], fuel);
      var first := ResolveBy(step, deps[0], fuel);
      if first.Success? {
        ResolveDepsFuelMonotone(step, deps[1..], fuel, first.value + acc);
      }
    }
  }

  /** A resolution in a world succeeds only after a successful clone or update of the
      package's own repository, and a failed clone or update is its outcome. */
  lemma ResolveNeedsSync(uri: string, force: bool, w: World, fuel: nat)
    ensures Resolve(uri, force, w, fuel).Success? ==> fuel > 0 && Sync(w.checkout(PackageRoot(uri)), force).Pass?
    ensures fuel > 0 && Sync(w.checkout(PackageRoot(uri)), force).Fail? ==>
      Resolve(uri, force, w, fuel) == Failure(Sync(w.checkout(PackageRoot(uri)), force).error)
  {
  }

  /** In a world: resolution succeeds exactly when the clone or update succeeds and every
      distinct `dependency_url` of the repository's resources resolves in turn. */
  lemma WorldResolveSucceedsIff(uri: string, force: bool, w: World, fuel: nat)
    requires fuel > 0
    ensures Resolve(uri, force, w, fuel).Success? <==>
      && Sync(w.checkout(PackageRoot(uri)), force).Pass?
      && forall d :: d in DependencyUrls(OwnResources(uri, w)) ==> Resolve(d, force, w, fuel - 1).Success?
  {
    var step := StepIn(force, w);
    ResolveSucceedsIff(step, uri, fuel);
    FetchSpec(uri, force, w);
    if step(uri).Success? {
      SameElems(step(uri).value.deps, DependencyUrls(OwnResources(uri, w)));
    }
  }

  /** In a world: on success the repository's own resources end the list and the list of
      every distinct `dependency_url` lies as one block in front of them. */
  lemma WorldDependenciesFirst(uri: string, force: bool, w: World, fuel: nat)
    requires Resolve(uri, force, w, fuel).Success?
    ensures fuel > 0
    ensures IsSuffix(OwnResources(uri, w), Resolve(uri, force, w, fuel).value)
    ensures forall d :: d in DependencyUrls(OwnResources(uri, w)) ==>
      && Resolve(d, force, w, fuel - 1).Success?
      && BlockBefore(Resolve(d, force, w, fuel - 1).value, Resolve(uri, force, w, fuel).value, OwnResources(uri, w))
  {
    var step := StepIn(force, w);
    DependenciesFirst(step, uri, fuel);
    FetchSpec(uri, force, w);
    SameElems(step(uri).value.deps, DependencyUrls(OwnResources(uri, w)));
  }

  /** Sequences with the same elements have the same members. */
  lemma SameElems(a: seq<string>, b: seq<string>)
    requires Elems(a) == Elems(b)
    ensures forall x :: x in a <==> x in b
  {
    forall x ensures x in a <==> x in b {
      assert x in a <==> x in Elems(a);
      assert x in b <==> x in Elems(b);
    }
  }

  /** A dirty work tree that is not forced stops the resolution with `Dirty` before any
      pull, discovery or dependency is looked at. */
  lemma DirtyTreeRefused(uri: string, w: World, fuel: nat)
    requires fuel > 0
    requires w.checkout(PackageRoot(uri)).state == Directory
    requires w.checkout(PackageRoot(uri)).status == Status(false)
    ensures Resolve(uri, false, w, fuel) == Failure(Dirty)
  {
  }
}
