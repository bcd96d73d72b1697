/**
 * The dependency-report generator of a source workspace: its package table
 * (filled by `_get_packages`, see `Manifests.GetPackages`), the grouping of
 * packages by repository, and the edges of its repository graph and of its
 * package graph. The package-graph edge rule is shared with the migration
 * analyser, whose between-repositories test is an `or` where this one's is
 * an `and`.
 */
module Workspace {
  import opened Wrappers
  import opened Graphs
  import opened Distro
  import opened Manifests

  /** The generator's `_pkgs`: package name to its record. */
  type Table = map<Name, PkgInfo>

  /** The repositories of the packages of `pkgs`. */
  function RepoNames(pkgs: Table): (rs: set<string>)
    ensures forall p :: p in pkgs ==> pkgs[p].repo in rs
    ensures forall r :: r in rs ==> exists p :: p in pkgs && pkgs[p].repo == r
  {
    set p | p in pkgs :: pkgs[p].repo
  }

  /**
   * `_get_repos`: the package names grouped by repository, each group in
   * the order the table is iterated. Every package is in the group of its
   * own repository and in no other; no group is empty; the groups are
   * keyed by exactly the packages' repositories.
   */
  method GetRepos(pkgs: Table) returns (repos: map<string, seq<Name>>)
    ensures forall p :: p in pkgs ==> pkgs[p].repo in repos && p in repos[pkgs[p].repo]
    ensures forall r :: r in repos ==>
      && repos[r] != [] && NoDup(repos[r])
      && forall p :: p in repos[r] ==> p in pkgs && pkgs[p].repo == r
    ensures repos.Keys == RepoNames(pkgs)
  {
    repos := map[];
    var todo := pkgs.Keys;
    while todo != {}
      invariant todo <= pkgs.Keys
      invariant forall p :: p in pkgs && p !in todo ==> pkgs[p].repo in repos && p in repos[pkgs[p].repo]
      invariant forall r :: r in repos ==>
        && repos[r] != [] && NoDup(repos[r])
        && forall p :: p in repos[r] ==> p in pkgs && p !in todo && pkgs[p].repo == r
      decreases |todo|
    {
      var p :| p in todo;
      var repo := pkgs[p].repo;
      var group := if repo in repos then repos[repo] else [];
      NoDupAppend(group, p);
      repos := repos[repo := group + [p]];
      todo := todo - {p};
    }
    GroupsKeyedByRepo(pkgs, repos);
  }

  /** Groups that hold every package under its repository, and only there, are keyed by exactly the repositories. */
  lemma GroupsKeyedByRepo(pkgs: Table, repos: map<string, seq<Name>>)
    requires forall p :: p in pkgs ==> pkgs[p].repo in repos
    requires forall r :: r in repos ==> repos[r] != [] && forall p :: p in repos[r] ==> p in pkgs && pkgs[p].repo == r
    ensures repos.Keys == RepoNames(pkgs)
  {
    forall r | r in RepoNames(pkgs) ensures r in repos {
      var p :| p in pkgs && pkgs[p].repo == r;
    }
    forall r | r in repos ensures r in RepoNames(pkgs) {
      assert repos[r][0] in repos[r];
    }
  }

  /**
   * The repository edges package `p` contributes through the dependencies
   * `ds`: to the repository of each dependency that is a known package of
   * another repository.
   */
  function RepoEdgesVia(pkgs: Table, p: Name, ds: seq<Name>): set<(string, string)>
    requires p in pkgs
  {
    set d | d in ds && d in pkgs && pkgs[d].repo != pkgs[p].repo :: (pkgs[p].repo, pkgs[d].repo)
  }

  /** The repository edges the packages `ps` contribute through all their dependencies. */
  function RepoEdges(pkgs: Table, ps: set<Name>): set<(string, string)> {
    set p, d | p in ps && p in pkgs && d in pkgs[p].depends && d in pkgs && pkgs[d].repo != pkgs[p].repo ::
      (pkgs[p].repo, pkgs[d].repo)
  }

  lemma RepoEdgesViaSnoc(pkgs: Table, p: Name, ds: seq<Name>, d: Name)
    requires p in pkgs
    ensures RepoEdgesVia(pkgs, p, ds + [d]) ==
      RepoEdgesVia(pkgs, p, ds) + (if d in pkgs && pkgs[d].repo != pkgs[p].repo then {(pkgs[p].repo, pkgs[d].repo)} else {})
  {
    assert forall x :: x in ds + [d] <==> x in ds || x == d;
  }

  lemma RepoEdgesAdd(pkgs: Table, done: set<Name>, p: Name)
    requires p in pkgs
    ensures RepoEdges(pkgs, done + {p}) == RepoEdges(pkgs, done) + RepoEdgesVia(pkgs, p, pkgs[p].depends)
  {
    var lhs, rhs := RepoEdges(pkgs, done + {p}), RepoEdges(pkgs, done) + RepoEdgesVia(pkgs, p, pkgs[p].depends);
    forall e | e in lhs ensures e in rhs {
      var q, d :| q in done + {p} && q in pkgs && d in pkgs[q].depends && d in pkgs && pkgs[d].repo != pkgs[q].repo &&
        e == (pkgs[q].repo, pkgs[d].repo);
      if q != p {
        assert e in RepoEdges(pkgs, done);
      }
    }
  }

  /** Moving `p` from the packages still to visit to the visited ones. */
  lemma Moved(ps: set<Name>, todo: set<Name>, done: set<Name>, p: Name)
    requires todo <= ps && done == ps - todo && p in todo
    ensures todo - {p} <= ps && done + {p} == ps - (todo - {p}) && |todo - {p}| < |todo|
  {
  }

  /** The inner edge loop of `generate_repo_dep_graph`, over the dependencies of package `p`. */
  method AddRepoEdgesOf(pkgs: Table, p: Name, edges0: set<(string, string)>) returns (edges: set<(string, string)>)
    requires p in pkgs
    ensures edges == edges0 + RepoEdgesVia(pkgs, p, pkgs[p].depends)
  {
    var deps := pkgs[p].depends;
    edges := edges0;
    for j := 0 to |deps|
      invariant edges == edges0 + RepoEdgesVia(pkgs, p, deps[..j])
    {
      var d := deps[j];
      assert deps[..j + 1] == deps[..j] + [d];
      RepoEdgesViaSnoc(pkgs, p, deps[..j], d);
      if d in pkgs {
        var repo1, repo2 := pkgs[p].repo, pkgs[d].repo;
        if repo1 != repo2 {
          edges := edges + {(repo1, repo2)};
        }
      }
    }
    assert deps[..|deps|] == deps;
  }

  /**
   * The outer edge loop of `generate_repo_dep_graph`, over the packages
   * `ps`: `edges` grows by the repository edges of each package.
   */
  method AddRepoEdges(pkgs: Table, ps: set<Name>) returns (edges: set<(string, string)>)
    requires ps <= pkgs.Keys
    ensures edges == RepoEdges(pkgs, ps)
  {
    edges := {};
    var todo := ps;
    ghost var done: set<Name> := {};
    while todo != {}
      invariant todo <= ps && done == ps - todo
      invariant edges == RepoEdges(pkgs, done)
      decreases |todo|
    {
      var p :| p in todo;
      edges := AddRepoEdgesOf(pkgs, p, edges);
      RepoEdgesAdd(pkgs, done, p);
      Moved(ps, todo, done, p);
      todo := todo - {p};
      done := done + {p};
    }
  }

  /**
   * `generate_repo_dep_graph`: a node per repository group, and an edge
   * `repo1 -> repo2` for every dependency of a package of `repo1` on a known
   * package of a different `repo2` (the graph is strict: an edge is there
   * once however often it is added).
   */
  method RepoDepGraph(pkgs: Table) returns (nodes: set<string>, edges: set<(string, string)>)
    ensures nodes == RepoNames(pkgs)
    ensures edges == RepoEdges(pkgs, pkgs.Keys)
  {
    var groups := GetRepos(pkgs);
    nodes := groups.Keys;
    edges := AddRepoEdges(pkgs, pkgs.Keys);
  }

  /**
   * The repository graph has the edge `r1 -> r2` exactly when a package of
   * `r1` depends on a known package of `r2` and the two differ: it has no
   * self-loop, a dependency that names no known package gives no edge, and
   * both ends are nodes of the graph.
   */
  lemma RepoEdgeMeaning(pkgs: Table, r1: string, r2: string)
    ensures (r1, r2) in RepoEdges(pkgs, pkgs.Keys) <==>
      r1 != r2 && exists p, d :: p in pkgs && d in pkgs[p].depends && d in pkgs && pkgs[p].repo == r1 && pkgs[d].repo == r2
    ensures (r1, r2) in RepoEdges(pkgs, pkgs.Keys) ==> r1 in RepoNames(pkgs) && r2 in RepoNames(pkgs)
  {
    if (r1, r2) in RepoEdges(pkgs, pkgs.Keys) {
      var p, d :| p in pkgs && d in pkgs[p].depends && d in pkgs && pkgs[d].repo != pkgs[p].repo &&
        (r1, r2) == (pkgs[p].repo, pkgs[d].repo);
    }
  }

  /**
   * How the between-repositories switch is read: both repositories must be
   * listed (the report generator's `and`), or one of them suffices (the
   * migration analyser's `or`).
   */
  datatype BetweenRule = BothListed | EitherListed

  /** The switches of `generate_pkg_dep_graph(within_repo, between_repos)`. */
  datatype Selection = Selection(withinRepo: bool, betweenRepos: Option<set<string>>, rule: BetweenRule)

  /** Whether a dependency from repository `r1` to repository `r2` is drawn under `sel`. */
  predicate Selected(sel: Selection, r1: string, r2: string) {
    || (sel.withinRepo && r1 == r2)
    || (sel.betweenRepos.Some? && r1 != r2 &&
        match sel.rule
        case BothListed => r1 in sel.betweenRepos.value && r2 in sel.betweenRepos.value
        case EitherListed => r1 in sel.betweenRepos.value || r2 in sel.betweenRepos.value)
  }

  /** The package edges `p -> d` for the dependencies `ds` of `p` that are known and selected. */
  function PkgEdgesVia(pkgs: Table, sel: Selection, p: Name, ds: seq<Name>): set<(Name, Name)>
    requires p in pkgs
  {
    set d | d in ds && d in pkgs && Selected(sel, pkgs[p].repo, pkgs[d].repo) :: (p, d)
  }

  /** The package edges of the packages `ps`. */
  function PkgEdges(pkgs: Table, sel: Selection, ps: set<Name>): set<(Name, Name)> {
    set p, d | p in ps && p in pkgs && d in pkgs[p].depends && d in pkgs && Selected(sel, pkgs[p].repo, pkgs[d].repo) ::
      (p, d)
  }

  lemma PkgEdgesViaSnoc(pkgs: Table, sel: Selection, p: Name, ds: seq<Name>, d: Name)
    requires p in pkgs
    ensures PkgEdgesVia(pkgs, sel, p, ds + [d]) ==
      PkgEdgesVia(pkgs, sel, p, ds) + (if d in pkgs && Selected(sel, pkgs[p].repo, pkgs[d].repo) then {(p, d)} else {})
  {
    assert forall x :: x in ds + [d] <==> x in ds || x == d;
  }

  lemma PkgEdgesAdd(pkgs: Table, sel: Selection, done: set<Name>, p: Name)
    requires p in pkgs
    ensures PkgEdges(pkgs, sel, done + {p}) == PkgEdges(pkgs, sel, done) + PkgEdgesVia(pkgs, sel, p, pkgs[p].depends)
  {
    var lhs, rhs := PkgEdges(pkgs, sel, done + {p}), PkgEdges(pkgs, sel, done) + PkgEdgesVia(pkgs, sel, p, pkgs[p].depends);
    forall e | e in lhs ensures e in rhs {
      var q, d :| q in done + {p} && q in pkgs && d in pkgs[q].depends && d in pkgs &&
        Selected(sel, pkgs[q].repo, pkgs[d].repo) && e == (q, d);
      if q != p {
        assert e in PkgEdges(pkgs, sel, done);
      }
    }
  }

  /** The node loop of `generate_pkg_dep_graph`: every package once. */
  method PkgNodes(pkgs: Table) returns (nodes: seq<Name>)
    ensures NoDup(nodes)
    ensures forall p :: p in nodes <==> p in pkgs
  {
    nodes := [];
    var todo := pkgs.Keys;
    while todo != {}
      invariant todo <= pkgs.Keys
      invariant NoDup(nodes)
      invariant forall p :: p in nodes <==> p in pkgs && p !in todo
      decreases |todo|
    {
      var p :| p in todo;
      if p !in nodes {
        NoDupAppend(nodes, p);
        nodes := nodes + [p];
      }
      todo := todo - {p};
    }
  }

  /** The inner edge loop of `generate_pkg_dep_graph`, over the dependencies of `p`; a dependency counts when it is in `nodes`. */
  method AddPkgEdgesOf(pkgs: Table, sel: Selection, nodes: seq<Name>, p: Name, edges0: set<(Name, Name)>)
    returns (edges: set<(Name, Name)>)
    requires p in pkgs
    requires forall q :: q in nodes <==> q in pkgs
    ensures edges == edges0 + PkgEdgesVia(pkgs, sel, p, pkgs[p].depends)
  {
    var deps := pkgs[p].depends;
    edges := edges0;
    for j := 0 to |deps|
      invariant edges == edges0 + PkgEdgesVia(pkgs, sel, p, deps[..j])
    {
      var d := deps[j];
      assert deps[..j + 1] == deps[..j] + [d];
      PkgEdgesViaSnoc(pkgs, sel, p, deps[..j], d);
      if d in nodes {
        var r1, r2 := pkgs[p].repo, pkgs[d].repo;
        if sel.withinRepo && r1 == r2 {
          edges := edges + {(p, d)};
        }
        if sel.betweenRepos.Some? && r1 != r2 {
          var listed := match sel.rule
            case BothListed => r1 in sel.betweenRepos.value && r2 in sel.betweenRepos.value
            case EitherListed => r1 in sel.betweenRepos.value || r2 in sel.betweenRepos.value;
          if listed {
            edges := edges + {(p, d)};
          }
        }
      }
    }
    assert deps[..|deps|] == deps;
  }

  /** The outer edge loop of `generate_pkg_dep_graph`, over the packages `ps`. */
  method AddPkgEdges(pkgs: Table, sel: Selection, nodes: seq<Name>, ps: set<Name>)
    returns (edges: set<(Name, Name)>)
    requires ps <= pkgs.Keys
    requires forall p :: p in nodes <==> p in pkgs
    ensures edges == PkgEdges(pkgs, sel, ps)
  {
    edges := {};
    var todo := ps;
    ghost var done: set<Name> := {};
    while todo != {}
      invariant todo <= ps && done == ps - todo
      invariant edges == PkgEdges(pkgs, sel, done)
      decreases |todo|
    {
      var p :| p in todo;
      edges := AddPkgEdgesOf(pkgs, sel, nodes, p, edges);
      PkgEdgesAdd(pkgs, sel, done, p);
      Moved(ps, todo, done, p);
      todo := todo - {p};
      done := done + {p};
    }
  }

  /**
   * `generate_pkg_dep_graph(within_repo, between_repos)`: a node per
   * package, and an edge `p -> d` for each dependency `d` of `p` that is a
   * known package and is selected by the switches.
   */
  method PkgDepGraph(pkgs: Table, sel: Selection) returns (nodes: seq<Name>, edges: set<(Name, Name)>)
    ensures NoDup(nodes) && forall p :: p in nodes <==> p in pkgs
    ensures edges == PkgEdges(pkgs, sel, pkgs.Keys)
  {
    nodes := PkgNodes(pkgs);
    edges := AddPkgEdges(pkgs, sel, nodes, pkgs.Keys);
  }

  /**
   * The package graph has `p -> d` exactly when `d` is a known dependency
   * of `p` and: they share a repository and `within_repo` is set, or their
   * repositories differ, `between_repos` is given and lists both (for the
   * report generator) or one of them (for the migration analyser).
   */
  lemma PkgEdgeMeaning(pkgs: Table, sel: Selection, p: Name, d: Name)
    ensures (p, d) in PkgEdges(pkgs, sel, pkgs.Keys) <==>
      p in pkgs && d in pkgs[p].depends && d in pkgs &&
      var r1, r2 := pkgs[p].repo, pkgs[d].repo;
      || (sel.withinRepo && r1 == r2)
      || (sel.betweenRepos.Some? && r1 != r2 &&
          if sel.rule == BothListed then r1 in sel.betweenRepos.value && r2 in sel.betweenRepos.value
          else r1 in sel.betweenRepos.value || r2 in sel.betweenRepos.value)
  {
    if (p, d) in PkgEdges(pkgs, sel, pkgs.Keys) {
      var q, e :| q in pkgs && e in pkgs[q].depends && e in pkgs && Selected(sel, pkgs[q].repo, pkgs[e].repo) &&
        (p, d) == (q, e);
    }
  }

  /**
   * Under the same switches, every edge the report generator draws (`and`)
   * the migration analyser draws too (`or`); the converse fails as soon as a
   * dependency crosses from a listed to an unlisted repository.
   */
  lemma BothWithinEither(pkgs: Table, withinRepo: bool, betweenRepos: Option<set<string>>)
    ensures PkgEdges(pkgs, Selection(withinRepo, betweenRepos, BothListed), pkgs.Keys)
         <= PkgEdges(pkgs, Selection(withinRepo, betweenRepos, EitherListed), pkgs.Keys)
  {
    var both, either := Selection(withinRepo, betweenRepos, BothListed), Selection(withinRepo, betweenRepos, EitherListed);
    forall e | e in PkgEdges(pkgs, both, pkgs.Keys) ensures e in PkgEdges(pkgs, either, pkgs.Keys) {
      PkgEdgeMeaning(pkgs, both, e.0, e.1);
      PkgEdgeMeaning(pkgs, either, e.0, e.1);
    }
  }

  /** A table where `a` (repository "r") depends on `b` (repository "s"), for the examples below. */
  function CrossTable(): Table {
    map["a" := PkgInfo("r/a", ["b"], "", ["BSD"], [], ["m"], "a", "r"),
        "b" := PkgInfo("s/b", [], "", ["BSD"], [], ["m"], "b", "s")]
  }

  /**
   * With only `r` listed, the migration analyser draws the cross-repository
   * edge `a -> b` and the report generator does not.
   */
  lemma EitherDrawsMore()
    ensures ("a", "b") in PkgEdges(CrossTable(), Selection(false, Some({"r"}), EitherListed), CrossTable().Keys)
    ensures ("a", "b") !in PkgEdges(CrossTable(), Selection(false, Some({"r"}), BothListed), CrossTable().Keys)
  {
    var t := CrossTable();
    PkgEdgeMeaning(t, Selection(false, Some({"r"}), EitherListed), "a", "b");
    PkgEdgeMeaning(t, Selection(false, Some({"r"}), BothListed), "a", "b");
    assert "r" != "s";
  }
}
