/**
 * The migration helper: its construction of the "is required by" package
 * and repository graphs over the release packages of one distribution file,
 * the depth-first ordering of both, and the colours `generate_repo_dep_graph`
 * gives to repository nodes and edges from the release status.
 */
module Migration {
  import opened Wrappers
  import opened Graphs
  import opened Distro
  import opened Manifests
  import opened Workspace
  import opened Sets

  /** An entry of `_our_packages`: the package, its kept dependencies and its repository. */
  datatype OurPackage = OurPackage(name: Name, deps: seq<Name>, repository: Name)

  /**
   * `get_recursive_dependencies(ri_dist, [p], limit_depth=1)` intersected
   * with the release packages of the selected distribution file.
   */
  function KeptDeps(distro: Distribution, dist: Distribution, p: Name): (r: seq<Name>)
    requires p in distro.deps
    ensures forall d :: d in r <==> d in distro.deps[p] && d in dist.releasePackages
  {
    KeepReleased(distro.deps[p], dist.releasePackages.Keys)
  }

  /** The entry `__init__` stores for release package `p`. */
  function EntryOf(distro: Distribution, dist: Distribution, p: Name): (e: OurPackage)
    requires p in distro.deps && p in dist.releasePackages
    ensures e.name == p && e.repository == dist.releasePackages[p]
    ensures forall d :: d in e.deps ==> d in dist.releasePackages && d in distro.deps[p]
  {
    OurPackage(p, KeptDeps(distro, dist, p), dist.releasePackages[p])
  }

  /** The package edges `d -> p` ("d is required by p") for the dependencies `ds` of `p`. */
  ghost function PkgVia(p: Name, ds: seq<Name>): set<(Name, Name)> {
    set d | d in ds :: (d, p)
  }

  /** The repository edges `repo(d) -> repo(p)` for the dependencies `ds` of `p`; equal repositories included. */
  ghost function RepVia(dist: Distribution, p: Name, ds: seq<Name>): set<(Name, Name)>
    requires p in dist.releasePackages
  {
    set d | d in ds && d in dist.releasePackages :: (dist.releasePackages[d], dist.releasePackages[p])
  }

  /** The package graph the packages `ps` produce: `d -> p` for every kept dependency `d` of `p`. */
  ghost function PkgRequiredBy(distro: Distribution, dist: Distribution, ps: set<Name>): set<(Name, Name)> {
    set p, d | p in ps && p in distro.deps && d in distro.deps[p] && d in dist.releasePackages :: (d, p)
  }

  /** The repository graph the packages `ps` produce: the repository image of the package graph. */
  ghost function RepRequiredBy(distro: Distribution, dist: Distribution, ps: set<Name>): set<(Name, Name)> {
    set p, d | p in ps && p in dist.releasePackages && p in distro.deps && d in distro.deps[p] && d in dist.releasePackages ::
      (dist.releasePackages[d], dist.releasePackages[p])
  }

  /** Every node on either end of an edge. */
  ghost function Endpoints(es: set<(Name, Name)>): set<Name> {
    (set e | e in es :: e.0) + (set e | e in es :: e.1)
  }

  /** Every key of the dictionary has a successor: the keys are created by `addEdge` only. */
  ghost predicate NoBareKeys(a: Adjacency) {
    forall u :: u in a.succ ==> a.succ[u] != []
  }

  lemma AddedNoBareKeys(a: Adjacency, u: Node, v: Node)
    requires NoBareKeys(a)
    ensures NoBareKeys(Added(a, u, v))
  {
    var r := Added(a, u, v);
    forall x | x in r.succ ensures r.succ[x] != [] {
      if x == u {
        assert HasEdge(r, u, v);
      }
    }
  }

  /** In a graph built by `addEdge` alone, the nodes are exactly the ends of its edges. */
  lemma NodesAreEndpoints(a: Adjacency)
    requires NoBareKeys(a)
    ensures NodeSet(a) == Endpoints(Edges(a))
  {
    forall x | x in NodeSet(a) ensures x in Endpoints(Edges(a)) {
      if x in a.succ {
        assert (x, a.succ[x][0]) in Edges(a);
      } else {
        var u, v :| u in a.succ && v in a.succ[u] && v == x;
        assert (u, v) in Edges(a);
      }
    }
    forall x | x in Endpoints(Edges(a)) ensures x in NodeSet(a) {
      var e :| e in Edges(a) && (e.0 == x || e.1 == x);
      var u, v :| u in a.succ && v in a.succ[u] && e == (u, v);
    }
  }

  lemma ViaSnoc(dist: Distribution, p: Name, ds: seq<Name>, d: Name)
    requires p in dist.releasePackages && d in dist.releasePackages
    ensures PkgVia(p, ds + [d]) == PkgVia(p, ds) + {(d, p)}
    ensures RepVia(dist, p, ds + [d]) == RepVia(dist, p, ds) + {(dist.releasePackages[d], dist.releasePackages[p])}
  {
    assert forall x :: x in ds + [d] <==> x in ds || x == d;
  }

  lemma {:induction false} RequiredByAdd(distro: Distribution, dist: Distribution, done: set<Name>, p: Name)
    requires p in distro.deps && p in dist.releasePackages
    ensures PkgRequiredBy(distro, dist, done + {p}) ==
      PkgRequiredBy(distro, dist, done) + PkgVia(p, KeptDeps(distro, dist, p))
    ensures RepRequiredBy(distro, dist, done + {p}) ==
      RepRequiredBy(distro, dist, done) + RepVia(dist, p, KeptDeps(distro, dist, p))
  {
    var kept := KeptDeps(distro, dist, p);
    forall e | e in PkgRequiredBy(distro, dist, done + {p})
      ensures e in PkgRequiredBy(distro, dist, done) + PkgVia(p, kept)
    {
      var q, d :| q in done + {p} && q in distro.deps && d in distro.deps[q] && d in dist.releasePackages && e == (d, q);
      if q != p {
        assert e in PkgRequiredBy(distro, dist, done);
      }
    }
    forall e | e in RepRequiredBy(distro, dist, done + {p})
      ensures e in RepRequiredBy(distro, dist, done) + RepVia(dist, p, kept)
    {
      var q, d :| q in done + {p} && q in dist.releasePackages && q in distro.deps && d in distro.deps[q] &&
        d in dist.releasePackages && e == (dist.releasePackages[d], dist.releasePackages[q]);
      if q != p {
        assert e in RepRequiredBy(distro, dist, done);
      }
    }
  }

  /**
   * The package graph holds `d -> p` exactly when `d` is a kept dependency
   * of release package `p`, so the graph is the reverse of "requires".
   */
  lemma PkgRequiredByMeaning(distro: Distribution, dist: Distribution, d: Name, p: Name)
    requires dist.releasePackages.Keys <= distro.deps.Keys
    ensures (d, p) in PkgRequiredBy(distro, dist, dist.releasePackages.Keys) <==>
      p in dist.releasePackages && d in KeptDeps(distro, dist, p)
  {
  }

  /**
   * The repository graph holds `r1 -> r2` exactly when a release package of
   * `r2` keeps a dependency on a package of `r1`; nothing excludes `r1 == r2`.
   */
  lemma RepRequiredByMeaning(distro: Distribution, dist: Distribution, r1: Name, r2: Name)
    requires dist.releasePackages.Keys <= distro.deps.Keys
    ensures (r1, r2) in RepRequiredBy(distro, dist, dist.releasePackages.Keys) <==>
      exists p, d :: p in dist.releasePackages && d in KeptDeps(distro, dist, p) &&
        dist.releasePackages[d] == r1 && dist.releasePackages[p] == r2
  {
    if (r1, r2) in RepRequiredBy(distro, dist, dist.releasePackages.Keys) {
      var p, d :| p in dist.releasePackages && p in distro.deps && d in distro.deps[p] && d in dist.releasePackages &&
        (r1, r2) == (dist.releasePackages[d], dist.releasePackages[p]);
      assert d in KeptDeps(distro, dist, p);
    }
  }

  /** Two packages of repository "r", "a" depending on "b". */
  const TwoInOneRepo: Distribution :=
    Distribution(map[], map["a" := "r", "b" := "r"], map["a" := ["b"], "b" := []], map[])

  /** A dependency inside one repository gives the repository graph a self-loop. */
  lemma SameRepoSelfLoop()
    ensures ("r", "r") in RepRequiredBy(TwoInOneRepo, TwoInOneRepo, TwoInOneRepo.releasePackages.Keys)
  {
    var d := TwoInOneRepo;
    assert "a" in d.releasePackages && "b" in d.deps["a"] && "b" in d.releasePackages;
    assert (d.releasePackages["b"], d.releasePackages["a"]) in RepRequiredBy(d, d, d.releasePackages.Keys);
  }

  /** The graphs `__init__` builds, each a valid graph of its own whose keys all have successors. */
  ghost predicate GraphsReady(pkgGraph: Graph, repGraph: Graph)
    reads pkgGraph, repGraph
  {
    pkgGraph != repGraph && pkgGraph.Valid() && repGraph.Valid() && NoBareKeys(pkgGraph.graph) && NoBareKeys(repGraph.graph)
  }

  /**
   * One iteration of the loop over the release packages in `__init__`:
   * the entry of `p`, with `d -> p` added to the package graph and
   * `repo(d) -> repo(p)` to the repository graph for each kept dependency.
   */
  method AddPackage(distro: Distribution, dist: Distribution, p: Name, pkgGraph: Graph, repGraph: Graph)
    returns (e: OurPackage)
    requires p in distro.deps && p in dist.releasePackages
    requires GraphsReady(pkgGraph, repGraph)
    modifies pkgGraph, repGraph
    ensures GraphsReady(pkgGraph, repGraph)
    ensures e == EntryOf(distro, dist, p)
    ensures Edges(pkgGraph.graph) == Edges(old(pkgGraph.graph)) + PkgVia(p, e.deps)
    ensures Edges(repGraph.graph) == Edges(old(repGraph.graph)) + RepVia(dist, p, e.deps)
  {
    e := OurPackage(p, KeptDeps(distro, dist, p), dist.releasePackages[p]);
    var deps := e.deps;
    ghost var p0, r0 := Edges(pkgGraph.graph), Edges(repGraph.graph);
    for i := 0 to |deps|
      invariant GraphsReady(pkgGraph, repGraph)
      invariant Edges(pkgGraph.graph) == p0 + PkgVia(p, deps[..i])
      invariant Edges(repGraph.graph) == r0 + RepVia(dist, p, deps[..i])
    {
      var d := deps[i];
      assert deps[..i + 1] == deps[..i] + [d];
      ViaSnoc(dist, p, deps[..i], d);
      ghost var pg, rg := Edges(pkgGraph.graph), Edges(repGraph.graph);
      AddEdgePair(dist, d, p, pkgGraph, repGraph);
      UnionStep(p0, pg, Edges(pkgGraph.graph), PkgVia(p, deps[..i]), PkgVia(p, deps[..i + 1]), {(d, p)});
      UnionStep(r0, rg, Edges(repGraph.graph), RepVia(dist, p, deps[..i]), RepVia(dist, p, deps[..i + 1]),
        {(dist.releasePackages[d], dist.releasePackages[p])});
    }
    assert deps[..|deps|] == deps;
  }

  /** `pkg_dep_graph.addEdge(d, p)` and `rep_dep_graph.addEdge(repo(d), repo(p))`. */
  method AddEdgePair(dist: Distribution, d: Name, p: Name, pkgGraph: Graph, repGraph: Graph)
    requires d in dist.releasePackages && p in dist.releasePackages
    requires GraphsReady(pkgGraph, repGraph)
    modifies pkgGraph, repGraph
    ensures GraphsReady(pkgGraph, repGraph)
    ensures Edges(pkgGraph.graph) == Edges(old(pkgGraph.graph)) + {(d, p)}
    ensures Edges(repGraph.graph) == Edges(old(repGraph.graph)) + {(dist.releasePackages[d], dist.releasePackages[p])}
  {
    AddedEdges(pkgGraph.graph, d, p);
    AddedNoBareKeys(pkgGraph.graph, d, p);
    pkgGraph.AddEdge(d, p);
    var rd, rp := dist.releasePackages[d], dist.releasePackages[p];
    AddedEdges(repGraph.graph, rd, rp);
    AddedNoBareKeys(repGraph.graph, rd, rp);
    repGraph.AddEdge(rd, rp);
  }

  /** Every entry of `m` is the one `__init__` stores for its package. */
  ghost predicate Entries(distro: Distribution, dist: Distribution, m: map<Name, OurPackage>) {
    forall p :: p in m ==> p in distro.deps && p in dist.releasePackages && m[p] == EntryOf(distro, dist, p)
  }

  lemma Entered(distro: Distribution, dist: Distribution, m: map<Name, OurPackage>, p: Name)
    requires Entries(distro, dist, m) && p in distro.deps && p in dist.releasePackages
    ensures Entries(distro, dist, m[p := EntryOf(distro, dist, p)])
    ensures m[p := EntryOf(distro, dist, p)].Keys == m.Keys + {p}
  {
  }

  /** The two empty graphs of `__init__`, filled by the loop over the release packages. */
  method BuildGraphs(distro: Distribution, dist: Distribution)
    returns (ourPackages: map<Name, OurPackage>, pkgGraph: Graph, repGraph: Graph)
    requires dist.releasePackages.Keys <= distro.deps.Keys
    ensures fresh(pkgGraph) && fresh(repGraph) && GraphsReady(pkgGraph, repGraph)
    ensures ourPackages.Keys == dist.releasePackages.Keys && Entries(distro, dist, ourPackages)
    ensures Edges(pkgGraph.graph) == PkgRequiredBy(distro, dist, dist.releasePackages.Keys)
    ensures Edges(repGraph.graph) == RepRequiredBy(distro, dist, dist.releasePackages.Keys)
  {
    pkgGraph := new Graph();
    repGraph := new Graph();
    assert Edges(pkgGraph.graph) == {} && Edges(repGraph.graph) == {};
    ourPackages := AddPackages(distro, dist, dist.releasePackages.Keys, pkgGraph, repGraph);
  }

  /**
   * The loop of `__init__` over `set(release_packages)`, visited in an
   * unspecified order: `_our_packages` gets an entry per package of `ps` and
   * the two graphs get the edges of all of them.
   */
  method AddPackages(distro: Distribution, dist: Distribution, ps: set<Name>, pkgGraph: Graph, repGraph: Graph)
    returns (ourPackages: map<Name, OurPackage>)
    requires ps <= dist.releasePackages.Keys <= distro.deps.Keys
    requires GraphsReady(pkgGraph, repGraph) && Edges(pkgGraph.graph) == {} && Edges(repGraph.graph) == {}
    modifies pkgGraph, repGraph
    ensures GraphsReady(pkgGraph, repGraph)
    ensures ourPackages.Keys == ps && Entries(distro, dist, ourPackages)
    ensures Edges(pkgGraph.graph) == PkgRequiredBy(distro, dist, ps)
    ensures Edges(repGraph.graph) == RepRequiredBy(distro, dist, ps)
  {
    ourPackages := map[];
    var todo := ps;
    ghost var done: set<Name> := {};
    while todo != {}
      invariant todo <= ps && done == ps - todo
      invariant GraphsReady(pkgGraph, repGraph)
      invariant ourPackages.Keys == done && Entries(distro, dist, ourPackages)
      invariant Edges(pkgGraph.graph) == PkgRequiredBy(distro, dist, done)
      invariant Edges(repGraph.graph) == RepRequiredBy(distro, dist, done)
      decreases |todo|
    {
      var p :| p in todo;
      var e := AddPackage(distro, dist, p, pkgGraph, repGraph);
      RequiredByAdd(distro, dist, done, p);
      Entered(distro, dist, ourPackages, p);
      Moved(ps, todo, done, p);
      ourPackages := ourPackages[p := e];
      todo := todo - {p};
      done := done + {p};
    }
  }

  /**
   * `migration_analyser.__init__` from the selected distribution file on:
   * builds `_our_packages` and both graphs and sorts both. Each order lists
   * every node of its graph once, self-loops included, and puts the source
   * of every edge first unless the edge closes a cycle; every level is at
   * least 1, and one above 1 is handed down from a predecessor.
   */
  method Initialise(distro: Distribution, dist: Distribution)
    returns (ourPackages: map<Name, OurPackage>, pkgTopo: seq<Name>, pkgLevel: map<Name, int>,
             repTopo: seq<Name>, repLevel: map<Name, int>, pkgGraph: Graph, repGraph: Graph)
    requires dist.releasePackages.Keys <= distro.deps.Keys
    ensures ourPackages.Keys == dist.releasePackages.Keys
    ensures forall p :: p in ourPackages ==> ourPackages[p] == EntryOf(distro, dist, p)
    ensures Edges(pkgGraph.graph) == PkgRequiredBy(distro, dist, dist.releasePackages.Keys)
    ensures Edges(repGraph.graph) == RepRequiredBy(distro, dist, dist.releasePackages.Keys)
    ensures NoDup(pkgTopo) && NoDup(repTopo)
    ensures forall x :: x in pkgTopo <==> x in Endpoints(PkgRequiredBy(distro, dist, dist.releasePackages.Keys))
    ensures forall x :: x in repTopo <==> x in Endpoints(RepRequiredBy(distro, dist, dist.releasePackages.Keys))
    ensures pkgLevel.Keys == NodeSet(pkgGraph.graph) && repLevel.Keys == NodeSet(repGraph.graph)
    ensures forall x :: x in pkgLevel ==> pkgLevel[x] >= 1
    ensures forall x :: x in repLevel ==> repLevel[x] >= 1
    ensures LevelsJustified(pkgGraph.graph, pkgLevel) && LevelsJustified(repGraph.graph, repLevel)
    ensures forall u, v :: (u, v) in Edges(pkgGraph.graph) ==> Before(pkgTopo, u, v) || Reaches(pkgGraph.graph, v, u)
    ensures forall u, v :: (u, v) in Edges(repGraph.graph) ==> Before(repTopo, u, v) || Reaches(repGraph.graph, v, u)
  {
    ourPackages, pkgGraph, repGraph := BuildGraphs(distro, dist);
    pkgTopo, pkgLevel := pkgGraph.TopologicalSort();
    repTopo, repLevel := repGraph.TopologicalSort();
    NodesAreEndpoints(pkgGraph.graph);
    NodesAreEndpoints(repGraph.graph);
  }

  /** The colours of `generate_repo_dep_graph`. */
  datatype Colour = Red | Green | Yellow

  /** Red for no release status, green for 'release', yellow otherwise. */
  function StatusColour(s: Option<ReleaseKind>): (c: Colour)
    ensures c == Red <==> s.None?
    ensures c == Green <==> s == Some(Release)
    ensures c == Yellow <==> s == Some(Source)
  {
    match s
    case None => Red
    case Some(Release) => Green
    case Some(Source) => Yellow
  }

  /**
   * The node colour of one repository group. The loop over the group sets
   * `nc` for each package and nothing stops it early, so the last package
   * of the group decides.
   */
  method GroupColour(status: map<Name, Option<ReleaseKind>>, group: seq<Name>) returns (nc: Colour)
    requires group != [] && forall pn :: pn in group ==> pn in status
    ensures nc == StatusColour(status[group[|group| - 1]])
  {
    nc := StatusColour(status[group[0]]);
    for i := 1 to |group|
      invariant nc == StatusColour(status[group[i - 1]])
    {
      var s := status[group[i]];
      if s.None? {
        nc := Red;
      } else if s == Some(Release) {
        nc := Green;
      } else {
        nc := Yellow;
      }
    }
  }

  /** The colour `c` of repository `r` is the colour of the status of one of its packages. */
  ghost predicate NodeColoured(pkgs: Table, status: map<Name, Option<ReleaseKind>>, r: string, c: Colour) {
    exists p :: p in pkgs && p in status && pkgs[p].repo == r && c == StatusColour(status[p])
  }

  /**
   * The node loop of `generate_repo_dep_graph`: a node per repository
   * group of `_get_repos`, coloured by the release status of the last
   * package of the group.
   */
  method RepoNodeColours(pkgs: Table, status: map<Name, Option<ReleaseKind>>)
    returns (groups: map<string, seq<Name>>, colours: map<string, Colour>)
    requires pkgs.Keys <= status.Keys
    ensures groups.Keys == RepoNames(pkgs) && colours.Keys == groups.Keys
    ensures forall p :: p in pkgs ==> p in groups[pkgs[p].repo]
    ensures forall r :: r in groups ==> groups[r] != [] && forall p :: p in groups[r] ==> p in pkgs && pkgs[p].repo == r
    ensures forall r :: r in colours ==> colours[r] == StatusColour(status[groups[r][|groups[r]| - 1]])
    ensures forall r :: r in colours ==> NodeColoured(pkgs, status, r, colours[r])
  {
    groups := GetRepos(pkgs);
    colours := ColourGroups(pkgs, status, groups);
    forall r | r in colours
      ensures NodeColoured(pkgs, status, r, colours[r])
    {
      assert groups[r][|groups[r]| - 1] in groups[r];
    }
  }

  /** The node loop over the groups `groups` of `_get_repos`. */
  method ColourGroups(pkgs: Table, status: map<Name, Option<ReleaseKind>>, groups: map<string, seq<Name>>)
    returns (colours: map<string, Colour>)
    requires pkgs.Keys <= status.Keys
    requires forall r :: r in groups ==> groups[r] != [] && forall p :: p in groups[r] ==> p in pkgs && pkgs[p].repo == r
    ensures colours.Keys == groups.Keys
    ensures forall r :: r in colours ==> colours[r] == StatusColour(status[groups[r][|groups[r]| - 1]])
  {
    colours := map[];
    var todo := groups.Keys;
    while todo != {}
      invariant todo <= groups.Keys && colours.Keys == groups.Keys - todo
      invariant forall r :: r in colours ==> colours[r] == StatusColour(status[groups[r][|groups[r]| - 1]])
      decreases |todo|
    {
      var k :| k in todo;
      var sg := groups[k];
      var nc := GroupColour(status, sg);
      colours := colours[k := nc];
      todo := todo - {k};
    }
  }

  /** Dependency `d` of package `p` draws edge `e` in colour `c`, the status colour of `d`. */
  ghost predicate DrawnBy(pkgs: Table, status: map<Name, Option<ReleaseKind>>, e: (string, string), c: Colour, p: Name, d: Name) {
    p in pkgs && d in pkgs[p].depends && d in pkgs && d in status &&
      pkgs[p].repo == e.0 && pkgs[d].repo == e.1 && c == StatusColour(status[d])
  }

  /** The colour `c` of edge `e` is the status colour of a dependency that draws it. */
  ghost predicate EdgeColoured(pkgs: Table, status: map<Name, Option<ReleaseKind>>, e: (string, string), c: Colour) {
    exists p, d :: DrawnBy(pkgs, status, e, c, p, d)
  }

  /** Every edge of `colours` has a colour drawn by one of its dependencies. */
  ghost predicate EdgesColoured(pkgs: Table, status: map<Name, Option<ReleaseKind>>, colours: map<(string, string), Colour>) {
    forall e :: e in colours ==> EdgeColoured(pkgs, status, e, colours[e])
  }

  lemma Recoloured(pkgs: Table, status: map<Name, Option<ReleaseKind>>, colours: map<(string, string), Colour>,
                   e: (string, string), c: Colour)
    requires EdgesColoured(pkgs, status, colours) && EdgeColoured(pkgs, status, e, c)
    ensures EdgesColoured(pkgs, status, colours[e := c])
  {
  }

  /** Dependency `d` of package `p` draws edge `e`: it is a known package of another repository. */
  predicate Draws(pkgs: Table, p: Name, d: Name, e: (string, string))
    requires p in pkgs
  {
    d in pkgs && pkgs[d].repo != pkgs[p].repo && e == (pkgs[p].repo, pkgs[d].repo)
  }

  /**
   * The colour of edge `e` once the dependencies `ds` of package `p` are
   * drawn in order over an edge coloured `c0` (`None`: not drawn yet): the
   * last dependency that draws `e` decides, and `c0` stays when none does.
   */
  ghost function DrawnColour(pkgs: Table, status: map<Name, Option<ReleaseKind>>, p: Name, ds: seq<Name>,
                             e: (string, string), c0: Option<Colour>): Option<Colour>
    requires p in pkgs && pkgs.Keys <= status.Keys
  {
    if ds == [] then c0
    else if Draws(pkgs, p, ds[|ds| - 1], e) then Some(StatusColour(status[ds[|ds| - 1]]))
    else DrawnColour(pkgs, status, p, ds[..|ds| - 1], e, c0)
  }

  /** Drawing one more dependency `d` recolours exactly the edge it draws. */
  lemma DrawnColourSnoc(pkgs: Table, status: map<Name, Option<ReleaseKind>>, p: Name, ds: seq<Name>, d: Name,
                        e: (string, string), c0: Option<Colour>)
    requires p in pkgs && pkgs.Keys <= status.Keys
    ensures DrawnColour(pkgs, status, p, ds + [d], e, c0) ==
      if Draws(pkgs, p, d, e) then Some(StatusColour(status[d])) else DrawnColour(pkgs, status, p, ds, e, c0)
  {
    assert (ds + [d])[..|ds|] == ds;
  }

  /** Every edge of `colours` has the colour `DrawnColour` gives it after the dependencies `ds`. */
  ghost predicate AsDrawn(pkgs: Table, status: map<Name, Option<ReleaseKind>>, p: Name, ds: seq<Name>,
                          colours0: map<(string, string), Colour>, colours: map<(string, string), Colour>)
    requires p in pkgs && pkgs.Keys <= status.Keys
  {
    forall e :: e in colours ==> Some(colours[e]) == DrawnColour(pkgs, status, p, ds, e, Prior(colours0, e))
  }

  /** Drawing dependency `d` as `ColourEdge` does extends `AsDrawn` from `ds` to `ds + [d]`. */
  lemma AsDrawnSnoc(pkgs: Table, status: map<Name, Option<ReleaseKind>>, p: Name, ds: seq<Name>, d: Name,
                    colours0: map<(string, string), Colour>, colours1: map<(string, string), Colour>,
                    colours: map<(string, string), Colour>)
    requires p in pkgs && pkgs.Keys <= status.Keys
    requires AsDrawn(pkgs, status, p, ds, colours0, colours1)
    requires colours1.Keys <= colours.Keys
    requires forall e :: e in colours ==> e in colours1 || Draws(pkgs, p, d, e)
    requires forall e :: e in colours && Draws(pkgs, p, d, e) ==> colours[e] == StatusColour(status[d])
    requires forall e :: e in colours1 && !Draws(pkgs, p, d, e) ==> colours[e] == colours1[e]
    ensures AsDrawn(pkgs, status, p, ds + [d], colours0, colours)
  {
    forall e | e in colours
      ensures Some(colours[e]) == DrawnColour(pkgs, status, p, ds + [d], e, Prior(colours0, e))
    {
      DrawnColourSnoc(pkgs, status, p, ds, d, e, Prior(colours0, e));
    }
  }

  /** The colour an edge of `colours0` had before, `None` for an edge not drawn yet. */
  function Prior(colours0: map<(string, string), Colour>, e: (string, string)): Option<Colour> {
    if e in colours0 then Some(colours0[e]) else None
  }

  lemma UpdatedKeys<K, V>(m: map<K, V>, k: K, v: V)
    ensures m[k := v].Keys == m.Keys + {k}
  {
  }

  /** The inner edge loop of `generate_repo_dep_graph` for package `p`, each drawn edge with its colour. */
  method EdgeColoursOf(pkgs: Table, status: map<Name, Option<ReleaseKind>>, p: Name, colours0: map<(string, string), Colour>)
    returns (colours: map<(string, string), Colour>)
    requires p in pkgs && pkgs.Keys <= status.Keys
    requires EdgesColoured(pkgs, status, colours0)
    ensures colours.Keys == colours0.Keys + RepoEdgesVia(pkgs, p, pkgs[p].depends)
    ensures forall e :: e in colours ==> Some(colours[e]) == DrawnColour(pkgs, status, p, pkgs[p].depends, e, Prior(colours0, e))
    ensures forall e :: e in colours0 && e !in RepoEdgesVia(pkgs, p, pkgs[p].depends) ==> colours[e] == colours0[e]
    ensures EdgesColoured(pkgs, status, colours)
  {
    var deps := pkgs[p].depends;
    colours := colours0;
    for j := 0 to |deps|
      invariant colours.Keys == colours0.Keys + RepoEdgesVia(pkgs, p, deps[..j])
      invariant AsDrawn(pkgs, status, p, deps[..j], colours0, colours)
      invariant forall e :: e in colours0 && e !in RepoEdgesVia(pkgs, p, deps[..j]) ==> colours[e] == colours0[e]
      invariant EdgesColoured(pkgs, status, colours)
    {
      var d := deps[j];
      assert deps[..j + 1] == deps[..j] + [d];
      RepoEdgesViaSnoc(pkgs, p, deps[..j], d);
      ghost var before := colours.Keys;
      ghost var colours1 := colours;
      colours := ColourEdge(pkgs, status, p, d, colours);
      AsDrawnSnoc(pkgs, status, p, deps[..j], d, colours0, colours1, colours);
      UnionStep(colours0.Keys, before, colours.Keys, RepoEdgesVia(pkgs, p, deps[..j]),
        RepoEdgesVia(pkgs, p, deps[..j + 1]),
        if d in pkgs && pkgs[d].repo != pkgs[p].repo then {(pkgs[p].repo, pkgs[d].repo)} else {});
    }
    assert deps[..|deps|] == deps;
  }

  /**
   * One dependency `d` of package `p`: when `d` is a known package of
   * another repository, the edge between the repositories is drawn in the
   * colour of the status of `d`.
   */
  method ColourEdge(pkgs: Table, status: map<Name, Option<ReleaseKind>>, p: Name, d: Name,
                    colours0: map<(string, string), Colour>)
    returns (colours: map<(string, string), Colour>)
    requires p in pkgs && pkgs.Keys <= status.Keys && d in pkgs[p].depends
    requires EdgesColoured(pkgs, status, colours0)
    ensures colours.Keys ==
      colours0.Keys + (if d in pkgs && pkgs[d].repo != pkgs[p].repo then {(pkgs[p].repo, pkgs[d].repo)} else {})
    ensures forall e :: e in colours && Draws(pkgs, p, d, e) ==> colours[e] == StatusColour(status[d])
    ensures forall e :: e in colours0 && !Draws(pkgs, p, d, e) ==> colours[e] == colours0[e]
    ensures EdgesColoured(pkgs, status, colours)
  {
    colours := colours0;
    if d in pkgs {
      var repo1, repo2 := pkgs[p].repo, pkgs[d].repo;
      var rs := status[d];
      if repo1 != repo2 {
        var ec := StatusColour(rs);
        assert DrawnBy(pkgs, status, (repo1, repo2), ec, p, d);
        Recoloured(pkgs, status, colours, (repo1, repo2), ec);
        UpdatedKeys(colours, (repo1, repo2), ec);
        colours := colours[(repo1, repo2) := ec];
        forall e | e in colours0 && !Draws(pkgs, p, d, e)
          ensures colours[e] == colours0[e]
        {
          assert e != (repo1, repo2);
        }
      }
    }
  }

  /**
   * The edge loop of `generate_repo_dep_graph`: exactly the repository
   * edges of the workspace graph, each coloured by the release status of
   * a dependency that draws it.
   */
  method RepoEdgeColours(pkgs: Table, status: map<Name, Option<ReleaseKind>>) returns (colours: map<(string, string), Colour>)
    requires pkgs.Keys <= status.Keys
    ensures colours.Keys == RepoEdges(pkgs, pkgs.Keys)
    ensures forall e :: e in colours ==> e.0 != e.1 && EdgeColoured(pkgs, status, e, colours[e])
  {
    colours := ColourEdgesOf(pkgs, status, pkgs.Keys);
    forall e | e in colours ensures e.0 != e.1 {
      RepoEdgeMeaning(pkgs, e.0, e.1);
    }
  }

  /** The outer edge loop, over the packages `ps`. */
  method ColourEdgesOf(pkgs: Table, status: map<Name, Option<ReleaseKind>>, ps: set<Name>)
    returns (colours: map<(string, string), Colour>)
    requires ps <= pkgs.Keys <= status.Keys
    ensures colours.Keys == RepoEdges(pkgs, ps)
    ensures EdgesColoured(pkgs, status, colours)
  {
    colours := map[];
    var todo := ps;
    ghost var done: set<Name> := {};
    while todo != {}
      invariant todo <= ps && done == ps - todo
      invariant colours.Keys == RepoEdges(pkgs, done)
      invariant EdgesColoured(pkgs, status, colours)
      decreases |todo|
    {
      var p :| p in todo;
      colours := EdgeColoursOf(pkgs, status, p, colours);
      RepoEdgesAdd(pkgs, done, p);
      Moved(ps, todo, done, p);
      todo := todo - {p};
      done := done + {p};
    }
  }
}
