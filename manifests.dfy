/**
 * Package manifests found in a checked-out workspace (the `package.xml`
 * files `catkin_pkg.topological_order` yields) and the per-package records
 * the scripts derive from them: the dependency-report generator's package
 * table, the second analyser's entries for a repository that is not
 * released, and the first analyser's dependency lists for non-released
 * repositories.
 */
module Manifests {
  import opened Wrappers
  import opened Strings
  import opened Graphs
  import opened Distro

  /** A parsed manifest: name, file name, build and exec dependency names, description, licences, authors, maintainers. */
  datatype Manifest = Manifest(
    name: Name,
    filename: string,
    buildDepends: seq<Name>,
    execDepends: seq<Name>,
    description: string,
    licenses: seq<string>,
    authors: seq<string>,
    maintainers: seq<string>)

  /** `list(set(s))`: each element once, in order of first occurrence. */
  function Dedup(s: seq<Name>): (r: seq<Name>)
    ensures NoDup(r)
    ensures forall x :: x in r <==> x in s
  {
    if s == [] then []
    else
      var r := Dedup(s[..|s| - 1]);
      var x := s[|s| - 1];
      assert s == s[..|s| - 1] + [x];
      if x in r then r
      else
        NoDupAppend(r, x);
        r + [x]
  }

  /** `list(set(s).difference(excluded))`. */
  function Without(s: seq<Name>, excluded: set<Name>): (r: seq<Name>)
    ensures forall x :: x in r <==> x in s && x !in excluded
    ensures NoDup(s) ==> NoDup(r)
  {
    if s == [] then []
    else if s[0] in excluded then Without(s[1..], excluded)
    else [s[0]] + Without(s[1..], excluded)
  }

  /** The build and exec dependency names of `m`, each once (`set(build + exec)`). */
  function Depends(m: Manifest): (r: seq<Name>)
    ensures NoDup(r)
    ensures forall x :: x in r <==> x in m.buildDepends || x in m.execDepends
  {
    Dedup(m.buildDepends + m.execDepends)
  }

  /** The names of a list of manifests. */
  function Names(ms: seq<Manifest>): (r: set<Name>)
    ensures forall i :: 0 <= i < |ms| ==> ms[i].name in r
    ensures forall n :: n in r ==> exists i :: 0 <= i < |ms| && ms[i].name == n
  {
    set m | m in ms :: m.name
  }

  /** Appending a manifest adds its name. */
  lemma NamesSnoc(ms: seq<Manifest>, m: Manifest)
    ensures Names(ms + [m]) == Names(ms) + {m.name}
  {
    assert forall x :: x in ms + [m] <==> x in ms || x == m;
  }

  /** No manifest after position `i` has the same name: a dictionary filled in order keeps the one at `i`. */
  predicate LastNamed(ms: seq<Manifest>, i: int)
    requires 0 <= i < |ms|
  {
    forall j :: i < j < |ms| ==> ms[j].name != ms[i].name
  }

  /**
   * The dictionary `d[m.name] = f(m)` filled from `ms` in order, as the
   * scripts fill theirs in a loop: a later manifest of the same name
   * replaces the earlier one.
   */
  function ByName<T>(ms: seq<Manifest>, f: Manifest -> T): (r: map<Name, T>)
    ensures forall n :: n in r <==> n in Names(ms)
  {
    if ms == [] then map[]
    else
      var init, last := ms[..|ms| - 1], ms[|ms| - 1];
      assert ms == init + [last];
      NamesSnoc(init, last);
      ByName(init, f)[last.name := f(last)]
  }

  /** The value kept for a name is the one of its last manifest. */
  lemma {:induction false} ByNameLast<T>(ms: seq<Manifest>, f: Manifest -> T, i: int)
    requires 0 <= i < |ms| && LastNamed(ms, i)
    ensures ms[i].name in ByName(ms, f) && ByName(ms, f)[ms[i].name] == f(ms[i])
  {
    var init := ms[..|ms| - 1];
    if i < |ms| - 1 {
      assert LastNamed(init, i);
      ByNameLast(init, f, i);
    }
  }

  /** Every value kept is the one of some manifest of that name. */
  lemma {:induction false} ByNameValue<T>(ms: seq<Manifest>, f: Manifest -> T, n: Name) returns (i: int)
    requires n in ByName(ms, f)
    ensures 0 <= i < |ms| && ms[i].name == n && ByName(ms, f)[n] == f(ms[i])
  {
    var init, last := ms[..|ms| - 1], ms[|ms| - 1];
    if last.name == n {
      i := |ms| - 1;
    } else {
      i := ByNameValue(init, f, n);
    }
  }

  /** The record the dependency-report generator keeps per package. */
  datatype PkgInfo = PkgInfo(
    path: string,
    depends: seq<Name>,
    description: string,
    licenses: seq<string>,
    authors: seq<string>,
    maintainers: seq<string>,
    package: string,
    repo: string)

  /**
   * The record for manifest `m`: the manifest's directory as `path`, its
   * last component as `package` and the component before that as `repo`.
   */
  function InfoOf(m: Manifest): (info: PkgInfo)
    ensures NoDup(info.depends)
    ensures forall x :: x in info.depends <==> x in m.buildDepends || x in m.execDepends
    ensures info.path == Dirname(m.filename)
  {
    var path := Dirname(m.filename);
    var prefix := PathSplit(path).0;
    PkgInfo(path, Depends(m), m.description, m.licenses, m.authors, m.maintainers,
      PathSplit(path).1, PathSplit(prefix).1)
  }

  /** Whatever the path, `package` is the last '/'-separated field of the manifest's directory. */
  lemma PackageIsLastField(m: Manifest)
    ensures var parts := Split(InfoOf(m).path, '/'); InfoOf(m).package == parts[|parts| - 1]
  {
    TailIsLastField(InfoOf(m).path);
  }

  /**
   * For a manifest at `.../<repo>/<package>/package.xml` (components without
   * '/', the two directory names not empty), `path` is the directory,
   * `package` its last component and `repo` the one before.
   */
  lemma PackageAndRepoOfPath(m: Manifest, parts: seq<string>)
    requires |parts| >= 3 && m.filename == Join(parts, "/")
    requires forall i :: 0 <= i < |parts| ==> '/' !in parts[i]
    requires parts[|parts| - 2] != "" && parts[|parts| - 3] != ""
    ensures InfoOf(m).path == Join(parts[..|parts| - 1], "/")
    ensures InfoOf(m).package == parts[|parts| - 2]
    ensures InfoOf(m).repo == parts[|parts| - 3]
  {
    DirectoryComponents(parts);
  }

  /**
   * `_get_packages`: one record per manifest, keyed by package name
   * (`ByName`: a name that occurs twice keeps the record of its last
   * manifest).
   */
  method GetPackages(order: seq<Manifest>) returns (result: map<Name, PkgInfo>)
    ensures result == ByName(order, InfoOf)
  {
    result := map[];
    for i := 0 to |order|
      invariant result == ByName(order[..i], InfoOf)
    {
      assert order[..i + 1][..i] == order[..i];
      result := result[order[i].name := InfoOf(order[i])];
    }
    assert order[..|order|] == order;
  }

  /** An entry of the second analyser for a package of a repository that is only available as source. */
  datatype SourceEntry = SourceEntry(
    name: Name,
    status: RepoStatus,
    deps: seq<Name>,
    repository: Name,
    authors: seq<string>,
    maintainers: seq<string>,
    license: string)

  /** The entry for manifest `m` of repository `repo`: status 'source', the union of its dependencies, licences joined by ", ". */
  function SourceEntryOf(m: Manifest, repo: Name): (e: SourceEntry)
    ensures e.name == m.name && e.status == SourceOnly && e.repository == repo
    ensures NoDup(e.deps) && forall x :: x in e.deps <==> x in m.buildDepends || x in m.execDepends
  {
    SourceEntry(m.name, SourceOnly, Depends(m), repo, m.authors, m.maintainers, Join(m.licenses, ", "))
  }

  /** The entry function for the packages of repository `repo`. */
  function EntryFor(repo: Name): Manifest -> SourceEntry {
    m => SourceEntryOf(m, repo)
  }

  /**
   * `_analyse_non_released_repo(sg, tmp_dir)`. `checkout` is what cloning
   * the source repository and listing its packages gave: `None` when that
   * raised, in which case the method returns `None` too. Otherwise every
   * package gets its entry, keyed by name.
   */
  method AnalyseNonReleasedRepo(sg: Repository, checkout: Option<seq<Manifest>>)
    returns (r: Option<map<Name, SourceEntry>>)
    ensures r.None? <==> checkout.None?
    ensures r.Some? ==> r.value == ByName(checkout.value, EntryFor(sg.name))
  {
    if checkout.None? {
      return None;
    }
    var pkgs := checkout.value;
    var entries: map<Name, SourceEntry> := map[];
    for i := 0 to |pkgs|
      invariant entries == ByName(pkgs[..i], EntryFor(sg.name))
    {
      assert pkgs[..i + 1][..i] == pkgs[..i];
      entries := entries[pkgs[i].name := SourceEntryOf(pkgs[i], sg.name)];
    }
    assert pkgs[..|pkgs|] == pkgs;
    return Some(entries);
  }

  /** A repository `analyse_non_released_repos` checks out: not released, but with a source entry. */
  predicate NotReleased(r: Repository) {
    r.release.None? && r.source.Some?
  }

  /**
   * The repository `analyse_non_released_repos` ends up analysing: the
   * first, in iteration order, that is not released, has a source entry
   * and could be checked out (`checkouts` holds the packages of each
   * repository whose clone succeeded). The `break` after the first success
   * stops the search there.
   */
  function FirstCheckedOut(d: Distribution, order: seq<Name>, checkouts: map<Name, seq<Manifest>>): (r: Option<Name>)
    requires forall k :: k in order ==> k in d.repositories
    ensures r.Some? ==> r.value in order && NotReleased(d.repositories[r.value]) && r.value in checkouts
    ensures r.None? ==> forall k :: k in order && NotReleased(d.repositories[k]) ==> k !in checkouts
  {
    if order == [] then None
    else if NotReleased(d.repositories[order[0]]) && order[0] in checkouts then Some(order[0])
    else FirstCheckedOut(d, order[1..], checkouts)
  }

  /** The dependency list of a package, without the names in `own` (the packages of its repository). */
  function DepsWithout(own: set<Name>): Manifest -> seq<Name> {
    m => Without(Depends(m), own)
  }

  /**
   * The search loop of `analyse_non_released_repos` over the repositories,
   * left by the `break` at the first clone that succeeds.
   */
  method FindCheckedOut(d: Distribution, order: seq<Name>, checkouts: map<Name, seq<Manifest>>)
    returns (analysed: Option<Name>)
    requires forall k :: k in order ==> k in d.repositories
    ensures analysed == FirstCheckedOut(d, order, checkouts)
  {
    analysed := None;
    var k := 0;
    while k < |order|
      invariant 0 <= k <= |order|
      invariant FirstCheckedOut(d, order, checkouts) == FirstCheckedOut(d, order[k..], checkouts)
    {
      var name := order[k];
      assert order[k..][0] == name && order[k..][1..] == order[k + 1..];
      if NotReleased(d.repositories[name]) && name in checkouts {
        analysed := Some(name);
        break;
      }
      k := k + 1;
    }
  }

  /**
   * The dependency loop of `analyse_non_released_repos` over the packages
   * of the checked-out repository: each package's dependencies without
   * those in its own repository.
   */
  method SourceDeps(pkgs: seq<Manifest>) returns (deps: map<Name, seq<Name>>)
    ensures deps == ByName(pkgs, DepsWithout(Names(pkgs)))
  {
    var names := Names(pkgs);
    deps := map[];
    for i := 0 to |pkgs|
      invariant deps == ByName(pkgs[..i], DepsWithout(names))
    {
      assert pkgs[..i + 1][..i] == pkgs[..i];
      deps := deps[pkgs[i].name := Without(Depends(pkgs[i]), names)];
    }
    assert pkgs[..|pkgs|] == pkgs;
  }

  /**
   * `analyse_non_released_repos`: the repository it analyses, and the
   * dependency lists of that repository's packages, each without the names
   * of the repository's own packages.
   */
  method AnalyseNonReleasedRepos(d: Distribution, order: seq<Name>, checkouts: map<Name, seq<Manifest>>)
    returns (analysed: Option<Name>, deps: map<Name, seq<Name>>)
    requires forall k :: k in order ==> k in d.repositories
    ensures analysed == FirstCheckedOut(d, order, checkouts)
    ensures analysed.None? ==> deps == map[]
    ensures analysed.Some? ==>
      var pkgs := checkouts[analysed.value]; deps == ByName(pkgs, DepsWithout(Names(pkgs)))
  {
    analysed := FindCheckedOut(d, order, checkouts);
    var allPkgs := if analysed.Some? then checkouts[analysed.value] else [];
    deps := SourceDeps(allPkgs);
  }

  /**
   * The dependency lists of a repository's packages hold no name of a
   * package of that repository, and otherwise exactly the build and exec
   * dependencies of the package's last manifest, each once.
   */
  lemma SameRepoDepsExcluded(ms: seq<Manifest>)
    ensures var deps := ByName(ms, DepsWithout(Names(ms)));
      && (forall n :: n in deps ==> NoDup(deps[n]) && forall x :: x in deps[n] ==> x !in Names(ms))
      && (forall i :: 0 <= i < |ms| && LastNamed(ms, i) ==> forall x ::
            x in deps[ms[i].name] <==> (x in ms[i].buildDepends || x in ms[i].execDepends) && x !in Names(ms))
  {
    var own := Names(ms);
    var deps := ByName(ms, DepsWithout(own));
    forall n | n in deps ensures NoDup(deps[n]) && forall x :: x in deps[n] ==> x !in own {
      var k := ByNameValue(ms, DepsWithout(own), n);
    }
    forall i | 0 <= i < |ms| && LastNamed(ms, i)
      ensures ms[i].name in deps && deps[ms[i].name] == Without(Depends(ms[i]), own)
    {
      ByNameLast(ms, DepsWithout(own), i);
    }
  }
}
