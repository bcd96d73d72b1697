# ROS distribution analysers: dependency-graph core

The analyser scripts read a ROS distribution (its repositories, release
packages, direct package dependencies and `package.xml` files) or a catkin
workspace. From that they derive package and repository dependency graphs,
order them depth-first, and classify each repository by release status.
This project models that core in Dafny and proves what each step promises.

- **Graphs** (`graph.dfy`) — the `Graph` class shared by the scripts:
  - `addEdge` on a `defaultdict(set)`, modelled with insertion-ordered keys
    and successor lists.
  - The recursive `topologicalSort`, which marks levels in `visited` and
    pushes each finished node onto the front of `stack`.
- **Strings** (`strings.dfy`) — `str.split`, `'/'.join`, ASCII lower-casing,
  and POSIX `os.path.split` / `os.path.dirname`.
- **XmlDict, PackageXml** (`xmldict.dfy`, `packagexml.dfy`) — `dictify` over
  an abstract element tree, and `_extract_from_package_xml`.
- **Distro** (`distro.dfy`) — the distribution snapshot and the facts the
  scripts rely on without checking. Also the two release-status
  classifications and the organisation read from a source URL.
- **ReleasedRepos** (`released.dfy`) — the second analyser's
  `_analyse_released_repo`. It keeps four graphs ("requires" and
  "required by", for packages and for repositories).
- **Reach** (`reach.dfy`) — what the depth-bounded recursion of
  `_analyse_pkg` reaches: from a package of a chosen organisation, its
  direct dependencies one level deeper, up to `max_depth`.
- **Resolver** (`resolver.dfy`) — the first analysers' depth-bounded
  `_analyse_pkg` and `analyse_pkg`, with `clean_out` and `repo_collect`.
  The packages recorded are proved to be exactly those reached.
- **Sets** (`sets.dfy`) — a set identity shared by the edge loops.
- **Manifests** (`manifests.dfy`) — manifest-derived data:
  - The report generator's `_get_packages`.
  - The second analyser's `_analyse_non_released_repo`.
  - The first analyser's `analyse_non_released_repos`.
- **Workspace** (`workspace.dfy`) — the report generator's `_get_repos` and
  its repository and package graphs. The package graph covers both
  readings of `between_repos` (`and` and `or`).
- **Migration** (`migration.dfy`) — the migration analyser:
  - Its "is required by" graphs over one distribution file, and their
    ordering.
  - The node and edge colours of its repository graph.

Two kinds of loop are modelled differently:

- A loop over a Python set or dictionary has an unspecified order. It is
  modelled in one of two ways:
  - It picks any remaining element (`:|`). The migration analyser's loops
    in `AddPackages`, `ColourGroups` and `ColourEdgesOf` work this way.
  - It takes its order as an extra sequence argument. The depth-first
    visits, the dependency loops of `_analyse_pkg`, `AddEdges` and
    `FindCheckedOut` work this way.

  Either way, the contract holds for every order.
- A loop over a list keeps the list's order.

Most methods are proved equal to a specification function over values;
the others state their properties directly. Lemmas
state the properties of those functions.

## Model

| member | source | states |
|---|---|---|
| Graphs.Added | rosdistro_analyser_v2.py:33-34 | after `addEdge(u, v)` the edge u→v is present, every other edge is unchanged, and no other key or successor list changes |
| Graphs.AddedWellFormed | rosdistro_analyser_v2.py:33-34 | `addEdge` keeps keys unique and each successor list free of repetition (a set) |
| Graphs.AddedIdempotent | rosdistro_analyser_v2.py:33-34 | adding the same edge twice gives the same graph as adding it once |
| Graphs.AddedEdges | rosdistro_analyser_v2.py:33-34 | the edge set after `addEdge(u, v)` is the old edge set plus (u, v) |
| Graphs.Graph.constructor | rosdistro_analyser_v2.py:25-26 | a new graph is empty |
| Graphs.Graph.AddEdge | rosdistro_analyser_v2.py:33-34 | the graph becomes `Added(old graph, u, v)` and stays well formed |
| Graphs.Mark | rosdistro_analyser_v2.py:40 | marking `v` with its level on entry keeps the depth-first invariant (levels justified by a parent one level up) |
| Graphs.Finish | rosdistro_analyser_v2.py:48 | pushing `v` on the front of `stack` once all successors are handled keeps the invariant: every edge from a finished node goes forward in `stack` or back to an ancestor |
| Graphs.MarkedIsFinishedOrOpen | rosdistro_analyser_v2.py:43-45 | a successor found already marked is finished or reaches the node being visited (it lies on the open call chain) |
| Graphs.AllMarked | rosdistro_analyser_v2.py:61-63 | once a run started from every key, every node (key or successor) is marked |
| Graphs.OrderIsTopologicalWhenAcyclic | rosdistro_analyser_v2.py:42-48 | on an acyclic graph every edge u→v has u before v in `stack` |
| Graphs.Graph.TopologicalSortUtil | rosdistro_analyser_v2.py:37-48 | the call marks `v` at `level`, keeps earlier marks, pushes `v` at the front of the grown stack and keeps the depth-first invariant; it terminates because each call marks a new node |
| Graphs.Graph.VisitSuccessors | rosdistro_analyser_v2.py:42-45 | after the loop over `v`'s successors each successor is marked and finished or reaches `v` |
| Graphs.Graph.TopologicalSort | rosdistro_analyser_v2.py:52-66 | terminates on every graph, cycles and self-loops included; `stack` lists every node exactly once; every node gets a level ≥ 1 justified by a parent; every edge u→v has u before v unless v reaches u |
| Strings.Split | rosdistro_analyser.py:216 | `str.split` returns at least one field |
| Strings.SplitSeparatorFree | rosdistro_analyser.py:216 | no field of a split contains the separator |
| Strings.JoinSplit | rosdistro_analyser.py:221-223 | joining the fields of a split with the separator gives back the string |
| Strings.SplitJoin | rosdistro_analyser.py:221-223 | splitting a join of separator-free fields gives back the fields |
| Strings.Lower | rosdistro_analyser.py:219 | lower-casing keeps the length |
| Strings.LowerAt | rosdistro_analyser.py:219 | lower-casing maps each character on its own |
| Strings.LowerIdempotent | rosdistro_analyser.py:219-220 | lower-casing twice is lower-casing once |
| Strings.PathSplit | rosdepend_graph.py:30 | the tail of `os.path.split` contains no '/' |
| Strings.TailIsLastField | rosdepend_graph.py:30 | the tail of `os.path.split(p)` is the last '/'-separated field of `p` |
| Strings.JoinedTail | rosdepend_graph.py:30 | splitting a '/'-joined path gives its last component as tail |
| Strings.SplitJoinedPath | rosdepend_graph.py:30-31 | splitting a '/'-joined path whose second-last component is non-empty gives the joined prefix and the last component |
| Strings.ParentComponents | rosdepend_graph.py:30-31 | two successive splits of such a path give its last and second-last components |
| Strings.DirectoryComponents | rosdepend_graph.py:23-31 | for a manifest path `…/repo/package/package.xml`, `dirname` drops the file name, then the two splits give the package and the repository |
| XmlDict.Dictify | rosdistro_analyser_v2.py:70-80 | `dictify(e, root)` equals the declarative conversion of `e`, wrapped as `{tag: …}` when `root` is set |
| XmlDict.AppendChild | rosdistro_analyser_v2.py:77-79 | one loop turn turns the grouping of the first i children into the grouping of the first i+1 |
| XmlDict.DictifyStep | rosdistro_analyser_v2.py:76-79 | the next child joins the list of its tag, which starts empty when the tag is new |
| XmlDict.GroupIsTagged | rosdistro_analyser_v2.py:76-79 | a tag's list is the conversion of exactly the children with that tag, in document order |
| XmlDict.ChildrenGrouped | rosdistro_analyser_v2.py:76-79 | every child tag maps to the non-empty list of that tag's converted children |
| XmlDict.TextStored | rosdistro_analyser_v2.py:74-75 | `_text` is a key exactly when the text is non-empty or an attribute or child has that name; non-empty text is stored there |
| XmlDict.AttributeKept | rosdistro_analyser_v2.py:73 | an attribute that no child tag and no text overrides is kept as a string |
| XmlDict.DictifiedKeys | rosdistro_analyser_v2.py:73-79 | the keys are the attributes, `_text` when there is text, and the child tags, nothing else |
| PackageXml.GroupTexts | rosdistro_analyser_v2.py:169-176 | children that all have text give the list of their texts |
| PackageXml.ItemTextsMissing | rosdistro_analyser_v2.py:169-170 | one item without `_text` makes the comprehension fail |
| PackageXml.FieldFromElement | rosdistro_analyser_v2.py:169-186 | a list field is the texts of the children with that tag (`''` when there are none); a text field is those texts joined by one space |
| PackageXml.ExtractFromElement | rosdistro_analyser_v2.py:167-187 | for a `package` element whose author, maintainer, description and licence children all have text, the extraction gives their texts in document order |
| PackageXml.ExtractFailsWithoutText | rosdistro_analyser_v2.py:169-186 | one such child without any text makes the extraction fail |
| Distro.KeepReleased | rosdistro_analyser_v2.py:205 | `deps.intersection(released)` keeps exactly the dependencies that are released, without repetition |
| Distro.OrgaUrlIsPrefix | rosdistro_analyser.py:216-223 | the organisation URL is the prefix of the source URL that ends with the organisation field |
| Distro.StatusesAgree | migration_helper.py:106-113 | 'release' when a release entry exists (even with a source entry too), 'source' when only a source entry exists, `None` for an unknown repository or one with neither; this agrees with the status the second analyser assigns |
| ReleasedRepos.CacheAnalyser.constructor | rosdistro_analyser_v2.py:133-138 | the four graphs start empty, and the analyser invariant holds; no shape of source URL is required, since this analyser never splits one |
| ReleasedRepos.CacheAnalyser.Kept | rosdistro_analyser_v2.py:205 | the kept dependencies are exactly the dependencies that are release packages of the selected file |
| ReleasedRepos.AddingKeepsInvariant | rosdistro_analyser_v2.py:205-216 | adding one package's edges keeps the invariant: each "required by" graph is the reverse of its "requires" graph, repository edges join distinct repositories, and every repository edge comes from a package edge |
| ReleasedRepos.CacheAnalyser.AddPair | rosdistro_analyser_v2.py:206-216 | one dependency adds p→d and d→p, plus the two repository edges when the repositories differ |
| ReleasedRepos.CacheAnalyser.AddEdges | rosdistro_analyser_v2.py:205-216 | the four graphs gain exactly the edges of `p`'s kept dependencies; repository edges only between different repositories |
| ReleasedRepos.CacheAnalyser.AnalyseReleasedRepo | rosdistro_analyser_v2.py:189-217 | only the first package of the repository is analysed (`return` inside the loop); no packages gives `None`; a failing read (no package.xml, a document `dictify` raises on, a field without text) gives an exception and leaves the graphs alone; the invariant holds throughout |
| Resolver.CleanedOut | rosdistro_analyser.py:64-68 | after `clean_out` each repository's dependencies are known repositories, exclude the repository itself, and were there before |
| Resolver.CleanedOutKeeps | rosdistro_analyser.py:64-68 | every known dependency other than the repository itself survives |
| Resolver.CleanedOutIdempotent | rosdistro_analyser.py:64-68 | running `clean_out` twice equals running it once |
| Resolver.CleanOutDeps | rosdistro_analyser.py:64-68 | the loop over `_repo_deps` computes `CleanedOut` |
| Resolver.CacheAnalyser.CleanOut | rosdistro_analyser.py:64-68 | the analyser's dependencies become `CleanedOut` of the old ones; the invariant holds |
| Resolver.RecordKeepsMapped | rosdistro_analyser.py:253-254 | after recording, every mapped package is a chosen release package mapped to its own repository and listed in that group |
| Resolver.RecordKeepsRecords | rosdistro_analyser.py:256 | every stored record was read at a depth within the bound |
| Resolver.RecordKeepsReposGrouped | rosdistro_analyser.py:253-254 | repository groups stay non-empty and hold only packages mapped to them |
| Resolver.RecordKeepsRepoDeps | rosdistro_analyser.py:253-260 | repository dependencies stay keyed by recorded repositories and come from recorded packages' dependencies |
| Resolver.RecordKeepsOrgaUrls | rosdistro_analyser.py:219-223 | each stored organisation URL belongs to a chosen organisation and is read from a recorded package's source URL |
| Resolver.RecordGrows | rosdistro_analyser.py:253-256 | recording only adds to the state |
| Resolver.RecordKeepsPkgsRecorded | rosdistro_analyser.py:253-256 | recording keeps every recorded package consistent with its group and record |
| Resolver.RecordKeepsOrgaUrlsComplete | rosdistro_analyser.py:219-223 | after recording, the organisation of every recorded package, the new one included, has its URL stored |
| Resolver.RecordKeepsInvariant | rosdistro_analyser.py:219-256 | recording a chosen package keeps the whole invariant |
| Resolver.AddedDepJustified | rosdistro_analyser.py:257-260 | adding the repository of a dependency of a package recorded in `r` keeps every repository dependency justified by a recorded package |
| Resolver.RepoDepKeepsInvariant | rosdistro_analyser.py:257-260 | adding the repository of a recorded package's dependency keeps the invariant and only adds |
| Resolver.CleanOutKeepsInvariant | rosdistro_analyser.py:64-68 | `clean_out` keeps the invariant |
| Resolver.RepoPackagesRecorded | rosdistro_analyser.py:253-256 | every package of a recorded repository has a record |
| Resolver.RecordedRepoKnown | rosdistro_analyser.py:72-85 | a recorded repository has a source and a release entry, so `repo_collect` can read both |
| Resolver.SummaryPackagesRecorded | rosdistro_analyser.py:81 | each summarised package maps to that repository and carries the record read at a depth within the bound |
| Resolver.OrgaUrlsExact | rosdistro_analyser.py:219-223 | under the invariant, an organisation has a stored URL if and only if it is the organisation of a recorded package |
| Resolver.InvariantReposKnown | rosdistro_analyser.py:72-85 | under the invariant, every recorded repository is released, has a source entry, and has recorded packages |
| Resolver.DepsRecordedGrows | rosdistro_analyser.py:257-261 | a package whose dependencies' repositories are recorded keeps them recorded as the state grows |
| Resolver.DepsRecordedTrans | rosdistro_analyser.py:257-261 | records made in two consecutive stretches, each with its dependencies recorded, make one such stretch |
| Resolver.DepsRecordedAdd | rosdistro_analyser.py:253-261 | a package whose dependencies' repositories are all recorded joins the packages recorded since the earlier start |
| Resolver.CleanedOutDepsKept | rosdistro_analyser.py:64-68 | `clean_out` removes only unknown repositories and self-dependencies, so every other recorded dependency survives |
| Resolver.RepoDepsAreExact | rosdistro_analyser.py:64-68 | with the invariant and every record's known, non-self dependencies kept, each repository's dependencies are exactly the other recorded repositories its packages depend on |
| Resolver.RecordableResolvable | rosdistro_analyser.py:201-219 | when every repository is linked to its release and source entries (`Linked`) and every source URL has at least four '/'-fields (`SourceUrls`), such a package with a readable package.xml can be resolved |
| Resolver.SetToSeq | rosdistro_analyser.py:90-92 | iterating a set visits each element exactly once |
| Resolver.CacheAnalyser.constructor | rosdistro_analyser.py:39-56 | all five tables start empty; the snapshots and organisations are as given |
| Resolver.CacheAnalyser.Record | rosdistro_analyser.py:219-256 | the state becomes the recording of `RecordOf(p, depth)` |
| Resolver.CacheAnalyser.RecordChosen | rosdistro_analyser.py:253-256 | recording a chosen package keeps the invariant, adds exactly that package to the mapped packages, stores a record of the given depth and only adds to the state |
| Resolver.CacheAnalyser.AnalysePkg | rosdistro_analyser.py:198-261 | past the depth bound, or for a package outside the organisations, nothing changes; otherwise the package is recorded under its repository and each dependency's repository is added to that repository's dependencies. For every package newly recorded by the call, its repository's dependencies include the repository of each of its dependencies. Afterwards every chosen package the call reaches with `max_depth - depth` levels left is recorded, and every newly recorded package is one it reaches; no memo, and the state only grows; under `Valid`, the stored organisation URLs are exactly the organisations of the recorded packages |
| Resolver.CacheAnalyser.RecordAndExpand | rosdistro_analyser.py:253-261 | a chosen package within the bound is recorded, its dependencies' repositories are added, everything it reaches is recorded, and every new record is reached from it; the package's own repository depends on the repository of each of its dependencies |
| Resolver.CacheAnalyser.ExpandDeps | rosdistro_analyser.py:257-261 | every dependency's repository is added to the package's repository's dependencies; every chosen package the package reaches is recorded; every record added since just before the package itself was recorded is reached from the package, and has its own dependencies' repositories among its repository's dependencies; the state only grows |
| Resolver.CacheAnalyser.ExpandDep | rosdistro_analyser.py:257-261 | one turn of the dependency loop: the repository of dependency i is added and the dependency analysed one level deeper, so the loop's guarantee, including the recorded repository dependencies of every new record, extends from the first i dependencies to the first i+1 |
| Resolver.CacheAnalyser.AddRepoDep | rosdistro_analyser.py:258-260 | `_repo_deps[src].add(repo(x))` and nothing else |
| Resolver.CacheAnalyser.RepoCollect | rosdistro_analyser.py:70-86 | one summary per recorded repository and no other, each holding the repository's cleaned dependencies (empty by default), its group and the record of each of its packages (`SummaryOf`) |
| Resolver.CacheAnalyser.Roots | rosdistro_analyser.py:89-91 | the roots are the given names, or when none are given every release package of the tagged file, once each |
| Resolver.CacheAnalyser.AnalyseRoots | rosdistro_analyser.py:92-93 | every chosen root, and every chosen package reachable from a root within `MaxDepth` levels, ends up recorded; every package newly recorded is so reachable; starting from no records, the records are exactly the reachable chosen packages; each newly recorded package's repository depends on the repository of each of its dependencies; under `Valid`, the stored organisation URLs are exactly the organisations of the recorded packages |
| Resolver.CacheAnalyser.VisitRoots | rosdistro_analyser.py:92-93 | the loop over the roots: afterwards every root's reach is recorded, every new record is reached from some root, and every new record's dependencies' repositories are recorded |
| Resolver.CacheAnalyser.AnalyseRootStep | rosdistro_analyser.py:92-93 | one turn of the loop over the roots extends that guarantee, including the recorded repository dependencies, from the first i roots to the first i+1 |
| Resolver.CacheAnalyser.AnalysePkgs | rosdistro_analyser.py:88-95 | after `analyse_pkg`: the roots are the given names, or every release package of the tagged file; the recorded packages include every chosen package reachable from the roots within `MaxDepth` and, from a fresh analyser, are exactly those; each repository's dependencies are recorded repositories other than itself; for each new record, the repository of each of its dependencies that is recorded and is not its own stays among its repository's dependencies; from a fresh analyser, a repository depends on exactly the other recorded repositories its packages' dependencies belong to; `repos` holds exactly the summaries of the recorded repositories; under `Valid`, the stored organisation URLs are exactly the organisations of the recorded packages |
| Resolver.CacheAnalyser.AnalyseFrom | rosdistro_analyser.py:92-95 | the same, for roots already fixed; under `Valid`, the stored organisation URLs are exactly the organisations of the recorded packages |
| Resolver.CacheAnalyser.CleanOutAndCollect | rosdistro_analyser.py:94-95 | the dependencies become `CleanedOut` of the old ones, so no repository depends on itself or on an unrecorded repository; every dependency recorded for a new package that is known and not its own survives; when every record has its dependencies recorded, a repository depends on exactly the other recorded repositories its packages' dependencies belong to; and `repos` holds exactly the summaries of the recorded repositories |
| Resolver.CacheAnalyser.AnalyseRoot | rosdistro-analyser.py:71-74 | the single-root version: the recorded packages include everything the root reaches within `MaxDepth` and, from a fresh analyser, are exactly those; the dependencies are cleaned out and, from a fresh analyser, each repository depends on exactly the other recorded repositories its packages' dependencies belong to; under `Valid`, the stored organisation URLs are exactly the organisations of the recorded packages |
| Reach.VisitsVia | rosdistro_analyser.py:257-261 | a chosen package reaches whatever one of its dependencies reaches with one level fewer |
| Reach.VisitsDepth | rosdistro_analyser.py:199-200 | with no level left a package reaches only itself; with one level a chosen package reaches its direct dependencies; a package outside the organisations reaches only itself |
| Reach.CoveredStep | rosdistro_analyser.py:253-261 | a recorded chosen package whose dependencies' reach, one level deeper, is recorded has its own reach recorded |
| Reach.ExplainedVia | rosdistro_analyser.py:257-261 | packages newly recorded while a dependency is analysed are reached from the package that depends on it |
| Reach.ExpandedStep | rosdistro_analyser.py:257-261 | analysing one more dependency extends the dependency loop's guarantee by one |
| Reach.CoveredAllSnoc | rosdistro_analyser.py:257-261 | recorded reach survives later records and extends to the next element analysed |
| Reach.ReachedStep | rosdistro_analyser.py:92-93 | analysing one more root extends the root loop's guarantee by one |
| Reach.RootsRecorded | rosdistro_analyser.py:92-93 | after the loop every chosen root is recorded |
| Reach.ReachedSets | rosdistro_analyser.py:88-95 | after the loop the reachable chosen packages are recorded, new records are reachable, and from no records the two sets are equal |
| Manifests.Dedup | rosdepend_graph.py:24-25 | `list(set(s))` holds each element of `s` exactly once |
| Manifests.Without | rosdistro_analyser.py:313 | the set difference keeps exactly the elements not excluded |
| Manifests.Depends | rosdepend_graph.py:24-25 | `depends` is the repetition-free union of build and exec dependencies |
| Manifests.ByName | rosdepend_graph.py:32 | filling a dictionary by name gives exactly the names of the manifests as keys |
| Manifests.ByNameLast | rosdepend_graph.py:32 | the value kept under a name is that of the last manifest with that name |
| Manifests.ByNameValue | rosdepend_graph.py:32 | every value kept comes from a manifest with that name |
| Manifests.InfoOf | rosdepend_graph.py:22-31 | `path` is the manifest's directory; `depends` is the repetition-free union of build and exec dependencies |
| Manifests.PackageIsLastField | rosdepend_graph.py:30 | `package` is always the last '/'-separated field of `path` |
| Manifests.PackageAndRepoOfPath | rosdepend_graph.py:23-31 | for `…/repo/package/package.xml`, `path`, `package` and `repo` are the directory, the package folder and the repository folder |
| Manifests.GetPackages | rosdepend_graph.py:17-33 | `_pkgs` maps each package name to the info of its last manifest in topological order |
| Manifests.SourceEntryOf | rosdistro_analyser_v2.py:237-246 | a source-only entry: name, status 'source', its repository, and the union of its dependencies without repetition |
| Manifests.AnalyseNonReleasedRepo | rosdistro_analyser_v2.py:219-249 | a failed checkout gives `None`; otherwise each package name maps to the entry of its last manifest |
| Manifests.FirstCheckedOut | rosdistro_analyser.py:287-304 | the first repository in iteration order that is unreleased, has a source entry and was checked out; `None` when there is no such repository |
| Manifests.FindCheckedOut | rosdistro_analyser.py:287-307 | the loop stops at the first successful checkout (the debug `break`) and finds `FirstCheckedOut` |
| Manifests.SourceDeps | rosdistro_analyser.py:308-313 | every package maps to its dependencies minus the packages of its own repository |
| Manifests.AnalyseNonReleasedRepos | rosdistro_analyser.py:275-317 | only the first checked-out repository is analysed; no such repository leaves `deps` empty |
| Manifests.SameRepoDepsExcluded | rosdistro_analyser.py:311-313 | no dependency list names a package of the same repository; the list holds exactly the build or exec dependencies outside it |
| Workspace.GetRepos | rosdepend_graph.py:35-42 | every package is in the group of its repository and in no other; no group is empty or repeats a package; the keys are exactly the packages' repositories |
| Workspace.GroupsKeyedByRepo | rosdepend_graph.py:38-41 | groups that hold every package under its repository, and only there, are keyed by exactly the repositories |
| Workspace.AddRepoEdgesOf | rosdepend_graph.py:58-65 | one package adds edges to the repositories of its known dependencies in other repositories |
| Workspace.AddRepoEdges | rosdepend_graph.py:57-65 | the loop over the packages collects exactly their repository edges |
| Workspace.RepoDepGraph | rosdepend_graph.py:44-66 | the nodes are the repositories; the edges are `RepoEdges` |
| Workspace.RepoEdgeMeaning | rosdepend_graph.py:57-65 | r1→r2 is an edge exactly when r1 ≠ r2 and some package of r1 depends on a known package of r2; so there are no self-loops, and unknown dependencies draw nothing |
| Workspace.PkgNodes | rosdepend_graph.py:77-81 | every package becomes a node exactly once |
| Workspace.AddPkgEdgesOf | rosdepend_graph.py:98-107 | one package adds p→d for each known dependency d the switches select |
| Workspace.AddPkgEdges | rosdepend_graph.py:97-107 | the loop over the packages collects exactly the selected package edges |
| Workspace.PkgDepGraph | rosdepend_graph.py:69-108 | the nodes are the packages, once each; the edges are `PkgEdges` |
| Workspace.PkgEdgeMeaning | rosdepend_graph.py:97-107 | p→d is an edge exactly when d is a known dependency of p and either they share a repository with `within_repo` set, or the repositories differ with `between_repos` listing both (`and`) or one of them (`or`) |
| Workspace.BothWithinEither | migration_helper.py:197-199 | every edge drawn under `and` is drawn under `or` |
| Workspace.EitherDrawsMore | migration_helper.py:197-199 | with one of two repositories listed, `or` draws a cross-repository edge that `and` does not |
| Migration.KeptDeps | migration_helper.py:77-80 | a package's kept dependencies are exactly its direct dependencies that are release packages of the selected file |
| Migration.EntryOf | migration_helper.py:78-82 | an entry of `_our_packages` names the package and its repository; its dependencies are a subset of the release packages |
| Migration.AddedNoBareKeys | migration_helper.py:20-21 | a graph built only by `addEdge` has no key without a successor |
| Migration.NodesAreEndpoints | migration_helper.py:20-21 | in such a graph the nodes are exactly the ends of its edges |
| Migration.PkgRequiredByMeaning | migration_helper.py:83-84 | the package graph has d→p exactly when d is a kept dependency of release package p |
| Migration.RepRequiredByMeaning | migration_helper.py:85-88 | the repository graph has r1→r2 exactly when a package of r2 keeps a dependency on a package of r1; r1 = r2 is allowed |
| Migration.SameRepoSelfLoop | migration_helper.py:85-88 | a dependency inside one repository gives that repository a self-loop |
| Migration.AddEdgePair | migration_helper.py:84-88 | one kept dependency adds d→p to the package graph and repo(d)→repo(p) to the repository graph |
| Migration.AddPackage | migration_helper.py:76-89 | one release package gives its entry, and the edges of all its kept dependencies in both graphs |
| Migration.AddPackages | migration_helper.py:76-89 | the loop over the release packages, in any order, fills `_our_packages` with each package's entry and both graphs with exactly their edges |
| Migration.BuildGraphs | migration_helper.py:73-89 | both graphs start empty and end up as the package and repository "required by" graphs |
| Migration.Initialise | migration_helper.py:71-93 | the entries and both graphs as above. Each sorted order lists every endpoint of its graph exactly once, self-loops included. Every edge goes forward in its order unless it closes a cycle. Every level is at least 1, and a level above 1 is one more than a predecessor's |
| Migration.GroupColour | migration_helper.py:127-138 | nothing stops the loop early, so the colour of a repository group is that of its last package |
| Migration.ColourGroups | migration_helper.py:125-139 | every group gets a node in the colour of its last package's status |
| Migration.RepoNodeColours | migration_helper.py:123-139 | one node per repository of the packages; the groups of `_get_repos` hold each package under its repository only; each node has the colour of its group's last package, which is one of that repository's packages |
| Migration.ColourEdge | migration_helper.py:143-157 | a known dependency in another repository draws the repository edge in the colour of the dependency's status; every other edge keeps its colour |
| Migration.DrawnColourSnoc | migration_helper.py:142-157 | drawing one more dependency recolours exactly the edge it draws, in its status colour |
| Migration.AsDrawnSnoc | migration_helper.py:142-157 | the dependency loop of one package keeps every edge in the colour of its last drawing so far |
| Migration.EdgeColoursOf | migration_helper.py:142-157 | one package draws exactly its repository edges; each edge has the colour of the last of the package's dependencies that draws it, and edges it does not draw keep their colour |
| Migration.ColourEdgesOf | migration_helper.py:141-157 | the loop over the packages draws exactly their repository edges |
| Migration.RepoEdgeColours | migration_helper.py:141-157 | the coloured edges are exactly the workspace repository edges. None is a self-loop. Each edge's colour is the status colour of a dependency that draws it |

## Left out

- Network, git checkouts, temporary directories, XML parsing, graphviz
  rendering, markdown and rosinstall text, `print`/`pprint`, and the
  `argparse` `main` functions. The distribution snapshot, the checked-out
  manifests and the parsed elements are parameters instead.
- The choice of the distribution file by its tags. That file is a parameter.
  When no file matches, the scripts fail on `None`; this is not modelled.
- The node labels of the graphviz graphs. This includes the `IndexError` on
  a package with no maintainer or licence (`pkg['maintainers'][0]`).
- github_manager.py, generate_token.py, get_token.py and
  generate_orga_rosinstall.py. These are GitHub API and credential clients.
- Crash paths on malformed snapshots or unknown roots are preconditions:
  `Distro.Linked`, `Distro.Listed`, `Distro.SourceUrls`, `Covers`, and the
  requirement of `Resolver.CacheAnalyser.AnalysePkgs`, `AnalyseFrom`,
  `AnalyseRoots` and `AnalyseRoot` that every explicit root be a release
  package (the script raises on an unknown `--root` name in
  `get_recursive_dependencies` or at `release_packages[pkg_name]`). These are `KeyError`,
  `AttributeError` and `IndexError` from missing repositories, packages or
  URL fields. The second analyser never splits a URL and does not require
  `SourceUrls`.
- `Resolver.CacheAnalyser.constructor`: requires a readable package.xml for
  every chosen release package, and a source URL with at least four
  '/'-fields for every repository. This holds even for packages and
  repositories the run never reaches. The script reads and splits only
  what it reaches, so such inputs are accepted by the script and excluded
  by the model. An unreadable package.xml that the run does reach aborts
  the whole run, because there is no handler.
- `Resolver.CacheAnalyser.AnalyseRoot`: its contract says nothing about
  `collected`. The single-root script discards the summaries that
  `repo_collect` returns. The model still keeps them in `collected`,
  where no caller reads them.
- The migration analyser reads `self._pkgs` and calls `self._get_repos()`.
  Its class defines neither. The model takes the report generator's package
  table, `_get_repos`, and a package-to-status map as parameters.
- The second analyser's `_analyse_repos` catches every exception per
  repository and goes on. Only the status assignment that follows
  (`Distro.AnalysedStatus`) is modelled.
- `repo_collect` reads `_repo_deps[r]` from a `defaultdict`. This inserts an
  empty set for a repository that has none. The model reads with the
  default and does not insert, and nothing reads `_repo_deps` after
  `repo_collect`.
- In the single-root script `orgas` defaults to the string `'lcas'`, where
  `in` tests for a substring. Its `main` always passes a list, and the model
  takes a list.
- `Strings.Lower`: only ASCII letters are lower-cased. Python's `str.lower`
  also maps other Unicode letters.
- `Strings.PathSplit`: POSIX `os.path.split` only. Windows separators and
  drive letters are not modelled.
- `Manifests.Dedup`: `list(set(s))` has an unspecified order. The model
  keeps the order of first occurrence and states only membership and the
  absence of repetition.
- `Manifests.FindCheckedOut`: the iteration order of
  `_distribution.repositories` is a given sequence. A failed checkout is
  `None` in the checkout map.
- `Migration.RepoEdgeColours`: in a strict graphviz graph, an edge drawn
  twice keeps the attributes of its last drawing. Within one package
  (`Migration.EdgeColoursOf`) the model states that last drawing exactly.
  Across packages, the order of `self._pkgs.items()` is unspecified. There
  the model states only that the colour comes from one of the dependencies
  that draw the edge, not which one.
- `Migration.ColourEdgesOf`: the same gap. The colour comes from some
  dependency that draws the edge, not from the last drawing.
- `Migration.Initialise`: the loop that prints each repository with its
  level is not modelled. The levels are returned.
- `Graphs.Graph.TopologicalSort`: Python's set order for successors and
  dictionary order for keys are modelled as insertion order. The contract
  holds for any fixed order.
