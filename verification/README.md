# fx resource tooling — a Dafny model

This project models the resource-management core of the `fx` command-line tool, which
installs resources for a game server from git repositories. It has two parts.

- **The manifest multimap** (`manifest.go`). A resource's `__resource.lua` script runs
  under a shim. The shim turns every undefined global `k` into a callable that records
  metadata through the `AddMetaData` host function. The model covers `Manifest`, `Get`,
  `GetAll`, `AddMetaData` and the shim's recording rules for scalar, table and chained
  calls. It also covers what `openManifest` returns when loading or running fails. A
  script is represented by the calls it makes (`Manifests.Event`), not executed.
- **The package and registry logic** (`cmd_resources.go`):
  - the local root `resources/[name]` derived from a package URI;
  - the clone-or-update decision, including the refusal to update a dirty work tree
    without `--force`;
  - `gatherResources` as a pre-order walk over an abstract directory tree;
  - the recursive `addPackage` resolver;
  - the text written to and read back from the registry file by
    `writeResourceLines` / `parseResourceLines`;
  - the append-only merge of `addResources`.

Modules follow the program:

| module | file | models |
|---|---|---|
| `Wrappers` | wrappers.dfy | `Option`, `Result`, `Outcome` |
| `Seqs` | seqs.dfy | duplicate-freedom, prefixes/suffixes, blocks, de-duplication |
| `Text` | text.dfy | Go's `strings.TrimSpace`, `strings.Split` on one character, `path.Split`'s file part, lower-casing |
| `Manifests` | manifest.dfy | `Manifest`, `Get`, `GetAll`, `AddMetaData`, the `__index` shim, `openManifest` outcomes |
| `Discovery` | discovery.dfy | `gatherResources` |
| `Registry` | registry.dfy | `writeResourceLines`, `parseResourceLines`, `addResources` |
| `Resolver` | resolver.dfy | package name and local root, `fetchRepo`, `addPackage` |

Abstractions:

- **Version control and the file system.** These are a `Resolver.World`. For every
  local root it says what `dirExists`, clone, open/status and pull report, and which
  directory tree the root then holds.
- **Go map iteration order.** In the dependency loop this order is unspecified. It is
  the world's `order` proposal, normalised by `Resolver.Enumerate` into a duplicate-free
  enumeration of the dependency set. `Resolver.EnumerateAny` shows every such
  enumeration can occur.
- **The recursion.** `addPackage` has no cycle guard, so its recursion may not end.
  The model gives it `fuel`; running out of fuel is the error `Diverged`.

Two consequences of the code that a reader might not expect:

- **Walk abort.** An unlistable directory does not just lose its own subtree: the walk
  callback of `gatherResources` returns the error it is handed (cmd_resources.go:44-47),
  and `filepath.Walk` then stops. `Discovery.Walk` therefore ends the whole walk at the
  first unlistable directory. `Discovery.WalkIsPreorder` states the result: the resources
  of the pre-order prefix before that directory.
- **Order among dependencies.** Each dependency's list is put in front of everything
  gathered so far (cmd_resources.go:180). So the dependencies' lists end up in reverse
  resolution order, followed by the repository's own resources (`Resolver.ResolveStacks`).
  With a single dependency the result is the dependency's resources, then the package's
  own in discovery order.

The registry's round trip needs names without spaces. `writeResourceLines` writes a
name as is, and `parseResourceLines` keeps only the second space-separated field.
`Registry.SpacedNameTruncated` shows that a name `a b` reads back as `a`.
`Registry.SpacedNameReRegistered` shows the consequence: registering such a resource a
second time appends it once more, and the registry then holds a repeated name; the merge
is therefore also stated for registries with repeats (`Registry.MergeAppendsOnlyNew`).

## Model

| member | source | states |
|---|---|---|
| Text.Split | cmd_resources.go:200 | splitting on a separator gives at least one piece, and no piece holds the separator |
| Text.SplitJoin | cmd_resources.go:200 | joining the pieces of a split with the separator gives back the original text |
| Text.TrimSpace | cmd_resources.go:210 | the trimmed field neither starts nor ends with Unicode white space, and it is a slice of the input with nothing but white space before and after it |
| Text.TrimSpaceUnique | cmd_resources.go:210 | those two properties determine the trimmed field: any slice that has them is the result of `TrimSpace` |
| Text.TrimSpacePadded | cmd_resources.go:210 | a field with one white-space character on each side, such as `\ta\r` from the line `start \ta\r`, trims to what lies between them |
| Text.TrimSpaceIsSlice | cmd_resources.go:210 | what trimming keeps is one contiguous slice of the input |
| Text.TrimSpaceDropsTrailingSpace | cmd_resources.go:210 | a trailing white-space character such as the `\r` of a CRLF line does not change the trimmed field |
| Text.Base | cmd_resources.go:131 | the file part of a path is a slash-free suffix, preceded by a slash whenever it is shorter than the path |
| Text.BaseOfJoin | cmd_resources.go:34 | the file part of `dir/name` is `name` when `name` has no slash |
| Text.Lower | cmd_resources.go:137 | the result has the input's length and no upper-case ASCII letter; each upper-case letter becomes its lower-case form and every other character is kept |
| Manifests.GetAll | manifest.go:25-27 | the values of a key in recording order; its contents are stated by `Manifests.RunAppends` and `Manifests.OpenManifest` |
| Manifests.Get | manifest.go:16-22 | `Get` is the first value `GetAll` lists, or `""` when there is none |
| Manifests.ToLuaString | manifest.go:93-94 | only strings and numbers convert, a string to itself and a number to its text |
| Manifests.AddMetaData | manifest.go:92-101 | when key and value both convert, the value is appended at the end of the key's list; every other key's list is unchanged, and nothing changes when either does not convert |
| Manifests.RecordAll | manifest.go:92-101 | performs `AddMetaData` calls in order; what it appends is stated by `Manifests.RecordAllAppends` |
| Manifests.RecordAllAppends | manifest.go:97 | a sequence of `AddMetaData` calls appends under each key exactly the accepted values, in call order |
| Manifests.AcceptedAppend | manifest.go:97 | the values accepted from two call sequences in a row are those of the first, then those of the second |
| Manifests.Run | manifest.go:115-124 | runs a script's events against a manifest; its result is stated by `Manifests.RunAppends` |
| Manifests.RunAppends | manifest.go:25-27 | running a script appends under each key the values its calls record, in order, after those already there |
| Manifests.Singular | manifest.go:46-49 | a table call's key is the name without its one trailing `s`, and the name itself otherwise |
| Manifests.Ipairs | manifest.go:52 | `ipairs` yields the array part up to, and not including, the first nil |
| Manifests.ShimCalls | manifest.go:42-58 | the `AddMetaData` calls that the shim's callable makes for `k(value)`; what they record is stated by `Manifests.ScalarCallRecordsOne` and `Manifests.TableCallRecordsEach` |
| Manifests.Calls | manifest.go:42-64 | the `AddMetaData` calls of one event, including the chained `k .. "_extra"` call; what they record is stated by `Manifests.ScalarCallRecordsOne`, `Manifests.TableCallRecordsEach` and `Manifests.ChainedCallRecordsExtra` |
| Manifests.ScalarCallRecordsOne | manifest.go:55-57 | a scalar call `k v` records exactly `v` under `k`, or nothing when `v` does not convert; other keys are untouched |
| Manifests.TableCallsAccepted | manifest.go:52-54 | the calls of a table call contribute the converting elements under the singular key and nothing under any other key |
| Manifests.TableCallRecordsEach | manifest.go:45-54 | a table call records each converting element in `ipairs` order under the name minus one trailing `s`; other keys are untouched |
| Manifests.ChainedCallRecordsExtra | manifest.go:60-64 | the chained call adds `extra` under the unstripped `k .. "_extra"` exactly when it is a string, after the first call's records, and leaves every other key as the first call left it; any other `extra` changes nothing |
| Manifests.OneMoreCall | manifest.go:62 | one more `AddMetaData` call with string arguments appends its value under its key and changes no other key |
| Manifests.OpenManifest | manifest.go:88-124 | a manifest is returned exactly when the script loads and runs without fault; a missing file is `NotFound`; the manifest holds under each key exactly the values the script's calls record, starting from empty |
| Discovery.Reached | cmd_resources.go:44-47 | the walk reaches the longest listable prefix of the pre-order, and all of it when every directory is listable |
| Discovery.EmitAppend | cmd_resources.go:28-48 | the resources emitted for two runs of directories in a row are those of the first, then those of the second |
| Discovery.ReachedAppend | cmd_resources.go:44-47 | after a fully listable run of directories the walk goes on into the next; an unlistable one stops it there |
| Discovery.AllReadableAppend | cmd_resources.go:44-47 | two runs of directories are all listable exactly when each run is |
| Discovery.Walk | cmd_resources.go:28-48 | the walk of one directory; every resource it emits is named after its path's final element (its full result is stated by `Discovery.WalkIsPreorder`) |
| Discovery.WalkChildren | cmd_resources.go:28-48 | the walk of sibling directories, stopping at the first aborted one; every resource it emits is named after its path's final element |
| Discovery.NamedAppend | cmd_resources.go:34-38 | resources named after their paths, in two runs, remain so together |
| Discovery.WalkIsPreorder | cmd_resources.go:28-48 | the walk emits, in pre-order, the resources of the directories before the first unlistable one, and completes exactly when every directory is listable |
| Discovery.WalkChildrenIsPreorder | cmd_resources.go:28-48 | the same for a sequence of sibling directories |
| Discovery.EmitSound | cmd_resources.go:30-40 | every emitted resource comes from a visited directory whose manifest loaded, and its name is its path's final element |
| Discovery.Gather | cmd_resources.go:25-51 | `gatherResources`; every gathered resource is named after its path's final element |
| Discovery.GatherIsPreorder | cmd_resources.go:25-51 | `gatherResources` is the pre-order prefix before the first unlistable directory |
| Discovery.GatherSound | cmd_resources.go:30-40 | every gathered resource is named after its path's final element and comes from a listable directory whose manifest loaded to exactly its manifest |
| Discovery.ChildPathsEndInName | cmd_resources.go:34-38 | below the root, every directory is reached under a path ending in its own name |
| Discovery.NamedByPathAppend | cmd_resources.go:34-38 | directories reached under their own names, in two runs, remain so together |
| Registry.ParseLine | cmd_resources.go:205-211 | a line contributes a name exactly when it begins with `start ` |
| Registry.ParseLineField | cmd_resources.go:206-210 | a `start` line gives the trimmed text between `start ` and the next space |
| Registry.ParseLines | cmd_resources.go:205-213 | the loop over lines gives at most one name per line, and none when no line begins with `start ` |
| Registry.Parse | cmd_resources.go:198-213 | there are no more names than lines, and every name read is free of spaces, newlines and surrounding white space |
| Registry.ParseLinesValid | cmd_resources.go:205-213 | names read from newline-free lines are no more than the lines and are all valid |
| Registry.SplitPieceWithin | cmd_resources.go:207 | a field of a split line holds only characters of the line |
| Registry.TrimSpaceWithin | cmd_resources.go:210 | trimming introduces no character |
| Registry.StartLineReadsBack | cmd_resources.go:226 | the `start` line written for a valid name reads back as that name |
| Registry.LinesReadBack | cmd_resources.go:225-227 | the `start` lines of valid names read back as those names, in order |
| Registry.SplitLines | cmd_resources.go:200 | the written `start` lines split into one line per name plus the empty piece after the final newline |
| Registry.ParseStartLines | cmd_resources.go:205-213 | those split lines read back as the names |
| Registry.LinesSplit | cmd_resources.go:226 | the first written line splits off as the first name's `start` line |
| Registry.ParseLinesCons | cmd_resources.go:205-213 | reading lines reads the first line, then the rest |
| Registry.Write | cmd_resources.go:218-229 | the buffer `writeResourceLines` fills; what it reads back as is stated by `Registry.RoundTrip` and `Registry.SpacedNameTruncated` |
| Registry.ParseWrite | cmd_resources.go:222-223 | the two header lines contribute no names |
| Registry.RoundTrip | cmd_resources.go:222-226 | reading back the file written for valid names gives those names |
| Registry.HeaderIsComment | cmd_resources.go:222-223 | neither header line is a `start` line or holds a newline |
| Registry.HeaderOnlyFileIsEmpty | cmd_resources.go:193-196 | an empty or missing file, and a file of headers only, give no names |
| Registry.SpacedLine | cmd_resources.go:207-210 | the `start` line of a name `a b` reads back as `a` |
| Registry.SpacedNameTruncated | cmd_resources.go:207-226 | the file written for a name `a b` reads back as `[a]` |
| Registry.SpacedFirstRun | cmd_resources.go:193-196 | the first registration into a missing file writes the one name |
| Registry.SpacedSecondRun | cmd_resources.go:245-259 | registering `a b` again over that file gives `[a, a b]` |
| Registry.SpacedNameReRegistered | cmd_resources.go:236-264 | registering a resource named `a b` twice does not give the file the first run wrote |
| Registry.WriteGrows | cmd_resources.go:225-227 | a name written in front of others lengthens the file |
| Registry.Merge | cmd_resources.go:245-259 | merging keeps the existing names as a prefix, and the result holds exactly the existing and the new names |
| Registry.MergeIsDedup | cmd_resources.go:245-258 | on a duplicate-free list, merging appends exactly the first occurrences of the new names not yet present, in order |
| Registry.MergeAppendsOnlyNew | cmd_resources.go:245-258 | on any registry, repeated names included, every appended name was absent from it and no name is appended twice |
| Registry.MergeAddsAbsent | cmd_resources.go:249-257 | every appended name was absent from the registry |
| Registry.MergeAddsOnce | cmd_resources.go:245-258 | no name is appended twice, because the list searched grows during the loop |
| Registry.MergeKnown | cmd_resources.go:249-256 | names all present already leave the list unchanged |
| Registry.MergeIdempotent | cmd_resources.go:245-259 | merging the same names twice adds nothing the second time |
| Registry.MergeExample | cmd_resources.go:245-258 | `["x","y"]` merged with `y`, `z` is `["x","y","z"]` |
| Registry.Find | cmd_resources.go:247-254 | the inner search finds a name exactly when the list holds it |
| Registry.MergeLoop | cmd_resources.go:245-259 | the nested loops compute the merge |
| Registry.AddResources | cmd_resources.go:236-259 | a read error is the only failure before writing; otherwise, for validly named resources, the registered names stay first, in order, and exactly the existing and new names are read back from the file written |
| Registry.MergeReadsBack | cmd_resources.go:245-261 | for valid names, the file written for the merge reads back as the merge |
| Registry.MergedValid | cmd_resources.go:245-259 | merging valid names gives valid names |
| Registry.AddResourcesIdempotent | cmd_resources.go:236-264 | registering the same validly named resources twice writes the same file both times |
| Resolver.PackageName | cmd_resources.go:130-137 | the package name of a URI; its shape is stated by `Resolver.PackageNameShape` and `Resolver.PackageNameIgnoresCase` |
| Resolver.PackageRoot | cmd_resources.go:136-138 | the local root of a URI; its shape is stated by `Resolver.PackageRootShape` |
| Resolver.PackageNameShape | cmd_resources.go:130-137 | the package name is lower-case, free of `/` and `.`, and no longer than the URI's final element |
| Resolver.LowerKeeps | cmd_resources.go:137 | lower-casing neither adds nor removes a non-letter |
| Resolver.RootDirShape | cmd_resources.go:137-138 | a root is `resources/` followed by the bracketed name, which is its final element |
| Resolver.PackageRootShape | cmd_resources.go:136-138 | the local root lies directly in `resources/`, and its final element is the package name in brackets |
| Text.BaseLower | cmd_resources.go:131-137 | lower-casing commutes with taking the final path element |
| Resolver.FirstPieceLower | cmd_resources.go:134-137 | lower-casing commutes with cutting at the first `.` |
| Resolver.PackageNameIgnoresCase | cmd_resources.go:131-138 | a URI and its lower-cased form share a package name and a local root |
| Resolver.PackageRootExample | cmd_resources.go:130-138 | `https://example.test/pack.git` is fetched into `resources/[pack]` |
| Resolver.FetchRepo | cmd_resources.go:107-124 | a dirty, unforced tree is refused; the update passes exactly when the tree is clean or forced and the pull does not fail, so "already up to date" is success |
| Resolver.DirtyRefusalPrecedesPull | cmd_resources.go:107-115 | a dirty, unforced update fails with `Dirty` whatever the pull would do |
| Resolver.Sync | cmd_resources.go:140-156 | an absent root is cloned, an existing directory is updated, and anything else at the root is an error |
| Resolver.DependencyUrls | cmd_resources.go:162-170 | the dependency URIs are exactly the `dependency_url` values of some resource |
| Resolver.Filter | cmd_resources.go:173 | filtering keeps exactly the common elements, and everything when all are kept |
| Resolver.Enumerate | cmd_resources.go:162-173 | the dependency loop ranges over every distinct dependency URI exactly once |
| Resolver.EnumerateAny | cmd_resources.go:173 | every duplicate-free order of the dependency set can occur |
| Resolver.DependencyOrder | cmd_resources.go:162-173 | a repository's dependency order holds each distinct `dependency_url` once |
| Resolver.Fetch | cmd_resources.go:127-170 | one `addPackage` call up to its dependency loop; its result is stated by `Resolver.FetchSpec` |
| Resolver.FetchSpec | cmd_resources.go:140-170 | a fetch succeeds exactly when the clone or update does; it then holds the gathered resources and each distinct dependency once, and otherwise the clone or update error |
| Resolver.Resolve | cmd_resources.go:127-183 | `addPackage` in a world: success needs fuel and a successful clone or update of the package's own root, and its list ends with the repository's own resources |
| Resolver.ResolveBy | cmd_resources.go:127-183 | success needs fuel and a successful fetch, and the list ends with the fetched repository's own resources; with no fuel left the outcome is `Diverged` |
| Resolver.ResolveDeps | cmd_resources.go:173-181 | the dependency loop; on success the list gathered before the loop ends the result |
| Resolver.Results | cmd_resources.go:173-174 | one outcome per dependency |
| Resolver.ResolveDepsFolded | cmd_resources.go:173-181 | the dependency loop succeeds exactly when every dependency resolves; on success the accumulated list ends the result and each dependency's list is a block in front of it; on failure the error is the first failure's |
| Resolver.FoldedStep | cmd_resources.go:174-180 | one turn of the loop extends the fold by one result |
| Resolver.FoldedSuccess | cmd_resources.go:176-180 | a successful loop had only successful dependencies |
| Resolver.FoldedFailure | cmd_resources.go:176-178 | a failed loop names its first failed dependency |
| Resolver.SuffixSplit | cmd_resources.go:180 | prepending a list leaves the earlier list as suffix and the new one as a block before it |
| Resolver.BlockBeforeShorterTail | cmd_resources.go:180 | a block before a longer tail is also before its end |
| Resolver.ResultsAt | cmd_resources.go:173-174 | the i-th outcome is that of the i-th dependency |
| Resolver.ResolveDepsSucceedsIff | cmd_resources.go:173-181 | the loop succeeds exactly when every dependency resolves on its own |
| Resolver.ResolveDepsBlock | cmd_resources.go:173-181 | on success, each dependency's list lies as one block before the accumulated list |
| Resolver.ResolveDepsFirstFailure | cmd_resources.go:173-178 | on failure, the error is that of the first dependency in order that fails, and all before it succeed |
| Resolver.ResolveDepsStacks | cmd_resources.go:173-181 | on success, the loop's result is the dependencies' lists, last resolved first, followed by the accumulated list |
| Resolver.ResolveStacks | cmd_resources.go:159-183 | on success, the result is the dependencies' lists, last resolved first, then the own resources; with one dependency, its list then the own resources |
| Resolver.ResolveSucceedsIff | cmd_resources.go:148-183 | resolution succeeds exactly when the fetch succeeds and every dependency resolves |
| Resolver.ResolveFirstFailure | cmd_resources.go:173-178 | a failed resolution after a good fetch has the error of the first failing dependency |
| Resolver.DependenciesFirst | cmd_resources.go:159-183 | on success the own resources end the list, and every dependency's list lies as a block in front of them |
| Resolver.DependencyFailureIsFatal | cmd_resources.go:174-178 | a failing dependency fails the whole resolution, with no partial list |
| Resolver.ResolveFuelMonotone | cmd_resources.go:127-183 | more fuel does not change a resolution that did not run out |
| Resolver.ResolveDepsFuelMonotone | cmd_resources.go:173-181 | the same for the dependency loop |
| Resolver.ResolveNeedsSync | cmd_resources.go:148-156 | success needs a successful clone or update of the package's own root, and a failed one is the outcome |
| Resolver.WorldResolveSucceedsIff | cmd_resources.go:140-183 | in a world: success exactly when the clone or update succeeds and every distinct `dependency_url` resolves |
| Resolver.WorldDependenciesFirst | cmd_resources.go:159-183 | in a world: the gathered resources end the list and every dependency's list lies before them |
| Resolver.SameElems | cmd_resources.go:162-173 | sequences with the same elements have the same members |
| Resolver.DirtyTreeRefused | cmd_resources.go:107-113 | a dirty, unforced work tree stops the resolution with `Dirty` before any pull or discovery |

## Left out

- Cloning, opening, status and pulling with go-git, and `dirExists` (cmd_resources.go:53-125). These are foreign calls. Their outcomes are fields of `Resolver.Checkout`.
- Reading and writing the registry file (`ioutil.ReadFile`/`WriteFile`). Only the text-to-names and names-to-text functions are modelled. A read error other than a missing file is `Registry.FileRead.Unreadable`.
- Registry.AddResources: the error `ioutil.WriteFile` may return (cmd_resources.go:231-233, 261-263) is not modelled; the model's success means the text to be written.
- Executing Lua with go-lua, the library denylist (manifest.go:77-86), and loading the embedded shim (manifest.go:105-113). The Lua VM cannot be modelled; a script is the sequence of calls it makes.
- A global that is already defined: the shim returns it instead of a recording callable (manifest.go:36-40). Such calls do not reach `AddMetaData` unless they are direct `AddMetaData` calls, which `Manifests.Event.Direct` covers.
- Manifests.ToLuaString: a Lua number's string form is carried as text in `Num`; go-lua's number formatting is not modelled.
- Text.Lower: lower-cases ASCII letters only; Go's `strings.ToLower` also folds non-ASCII letters.
- Discovery.Walk: plain files are not represented. The walk visits them but never emits anything for them. Paths are built with `/`; Windows separators are not modelled.
- Discovery.Walk: follows `filepath.Walk` as it lists a directory before calling the callback, so an unlistable directory is handed over with its error and emits nothing. Go releases that called the callback once before listing would have gathered that directory's own resource before the walk stopped.
- Text: Go strings are byte sequences, while the model's strings are sequences of Unicode scalar values. Directory names and registry text that are not valid UTF-8 cannot be represented.
- Resolver.ResolveBy: a resolution that would recurse forever on a dependency cycle ends with `Diverged` when the fuel runs out. `Resolver.ResolveFuelMonotone` shows the bound changes nothing for resolutions that end.
- Resolver.Enumerate: Go's random map order is an arbitrary proposal normalised to a duplicate-free enumeration, not a random choice.
- The world does not change during a resolution. A second visit of the same local root, for example through a diamond dependency or two URIs with the same package name, sees the same checkout again. The program would instead find the directory it has just cloned and take the update path. Likewise the order in which a URI's dependencies are resolved depends only on the URI and its dependency set, so a second visit resolves them in the same order; Go draws a new random order for every `range` over the dependency map (cmd_resources.go:173).
- The messages printed by `fetchRepo`, `cloneRepo` and `openManifest`, and the CLI commands in `cmdAdd`/`cmdGet` and main.go.
