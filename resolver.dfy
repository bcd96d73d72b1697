/**
 * The depth-bounded dependency resolver of the first analyser scripts:
 * starting from root packages, record every package hosted under one of
 * the chosen organisations, follow its direct dependencies one level deeper
 * each time up to a fixed depth, and collect per repository the packages
 * found and the repositories depended on.
 */
module Resolver {
  import opened Wrappers
  import opened Strings
  import opened Graphs
  import opened XmlDict
  import opened PackageXml
  import opened Distro
  import opened Reach

  /** `self._max_depth`. */
  const MaxDepth: int := 5

  datatype SourceInfo = SourceInfo(name: Name, url: string, orga: string, branch: string)
  datatype ReleaseInfo = ReleaseInfo(name: Name, url: string, version: string)

  /** The dictionary `s` that `_analyse_pkg` stores for a recorded package. */
  datatype PkgRecord = PkgRecord(
    depth: int, depends: seq<Name>, name: Name, source: SourceInfo,
    release: Option<ReleaseInfo>, packageXml: Value, package: PackageInfo)

  /** One entry of `repo_collect`'s result. */
  datatype RepoSummary = RepoSummary(
    deps: set<Name>, name: Name, url: string, version: string,
    packagesDependedOn: set<Name>, packages: map<Name, PkgRecord>, containedPackages: seq<Name>)

  /** The source repository of release package `p`'s repository, if it has one. */
  function SourceOf(d: Distribution, p: Name): Option<SourceRepo> {
    if p in d.releasePackages && d.releasePackages[p] in d.repositories then
      d.repositories[d.releasePackages[p]].source
    else None
  }

  /**
   * `_orga_url`'s key and value read from `p`'s source URL: the lower-cased
   * organisation and the organisation's URL; None when `p` has no source
   * URL with an organisation field.
   */
  function OrgaEntry(d: Distribution, p: Name): Option<(string, string)> {
    if SourceOf(d, p).Some? && |Split(SourceOf(d, p).value.url, '/')| >= 4 then
      var url := SourceOf(d, p).value.url;
      Some((Lower(Orga(url)), OrgaUrl(url)))
    else None
  }

  /** `_analyse_pkg` records and expands `p`: its source URL's lower-cased organisation is one of `orgas`. */
  predicate Recordable(d: Distribution, orgas: seq<string>, p: Name) {
    OrgaEntry(d, p).Some? && OrgaEntry(d, p).value.0 in orgas
  }

  /**
   * The package.xml of `p` is present, `dictify` does not fail on it, its
   * root is a `package` element, and the four fields can be read from it.
   */
  predicate Readable(d: Distribution, p: Name) {
    && p in d.packageXml && Dictifiable(d.packageXml[p])
    && PackageDict(d.packageXml[p]).Some? && Extract(PackageDict(d.packageXml[p]).value).Some?
  }

  /** Reading the record of `p` does not raise: a release package with dependencies, a source URL with an organisation and a readable package.xml. */
  predicate Resolvable(d: Distribution, p: Name) {
    && p in d.releasePackages && p in d.deps
    && OrgaEntry(d, p).Some?
    && Readable(d, p)
  }

  /** The record `s` stored for `p` reached at `depth`; None when reading it raises. */
  function RecordOf(d: Distribution, p: Name, depth: int): (r: Option<PkgRecord>)
    ensures r.Some? <==> Resolvable(d, p)
    ensures r.Some? ==> r.value.depth == depth && r.value.name == p && r.value.depends == d.deps[p]
  {
    if !Resolvable(d, p) then None
    else
      var repo := d.repositories[d.releasePackages[p]];
      var src := repo.source.value;
      var px := PackageDict(d.packageXml[p]).value;
      Some(PkgRecord(
        depth, d.deps[p], p,
        SourceInfo(src.name, src.url, Orga(src.url), src.version),
        if repo.release.Some? then
          Some(ReleaseInfo(repo.release.value.name, repo.release.value.url, repo.release.value.version))
        else None,
        Dict(map["package" := Dict(px)]),
        Extract(px).value))
  }

  /** `clean_out`'s result: each dependency set restricted to known repositories, without the repository itself. */
  function CleanedOut(repoDeps: map<Name, set<Name>>, known: set<Name>): (r: map<Name, set<Name>>)
    ensures r.Keys == repoDeps.Keys
    ensures forall rd :: rd in r ==> r[rd] <= known && rd !in r[rd] && r[rd] <= repoDeps[rd]
  {
    map rd | rd in repoDeps :: repoDeps[rd] * known - {rd}
  }

  /** Every known dependency other than the repository itself survives `clean_out`. */
  lemma CleanedOutKeeps(repoDeps: map<Name, set<Name>>, known: set<Name>, rd: Name, q: Name)
    requires rd in repoDeps && q in repoDeps[rd] && q in known && q != rd
    ensures q in CleanedOut(repoDeps, known)[rd]
  {
  }

  /** `clean_out` is idempotent. */
  lemma CleanedOutIdempotent(repoDeps: map<Name, set<Name>>, known: set<Name>)
    ensures CleanedOut(CleanedOut(repoDeps, known), known) == CleanedOut(repoDeps, known)
  {
    var once := CleanedOut(repoDeps, known);
    var twice := CleanedOut(once, known);
    forall rd | rd in once
      ensures twice[rd] == once[rd]
    {
      assert once[rd] <= known && rd !in once[rd];
    }
    assert twice.Keys == once.Keys;
  }

  /** The value under `k`, with `defaultdict(set)`'s default. */
  function Get(m: map<Name, set<Name>>, k: Name): set<Name> {
    if k in m then m[k] else {}
  }

  /** The resolver's mutable state: `_pkgs`, `_repos`, `_repo_deps`, `_pkg2repo` and `_orga_url`. */
  datatype State = State(
    pkgs: map<Name, PkgRecord>, repos: map<Name, set<Name>>, repoDeps: map<Name, set<Name>>,
    pkg2repo: map<Name, Name>, orgaUrl: map<string, string>)

  /** Recorded packages: each is chosen, mapped to its own repository, listed there, with a record from a depth within the bound. */
  ghost predicate PkgsRecorded(
    d: Distribution, chosen: set<Name>, pkgs: map<Name, PkgRecord>, repos: map<Name, set<Name>>, pkg2repo: map<Name, Name>)
  {
    && pkgs.Keys == pkg2repo.Keys
    && (forall p :: p in pkg2repo ==>
          && p in chosen && p in d.releasePackages
          && pkg2repo[p] == d.releasePackages[p]
          && pkg2repo[p] in repos && p in repos[pkg2repo[p]])
    && (forall p {:trigger RecordOf(d, p, pkgs[p].depth)} :: p in pkgs ==>
          pkgs[p].depth <= MaxDepth && RecordOf(d, p, pkgs[p].depth) == Some(pkgs[p]))
  }

  /** Every repository group is non-empty and holds only packages mapped to it. */
  ghost predicate ReposGrouped(repos: map<Name, set<Name>>, pkg2repo: map<Name, Name>) {
    && (forall r :: r in repos ==> repos[r] != {})
    && (forall r, p :: r in repos && p in repos[r] ==> p in pkg2repo && pkg2repo[p] == r)
  }

  /** Repository `q` is the repository of a dependency of a package recorded in repository `r`. */
  ghost predicate DependedOn(d: Distribution, repos: map<Name, set<Name>>, r: Name, q: Name) {
    exists p, x :: r in repos && p in repos[r] && p in d.deps && x in d.deps[p] &&
      x in d.releasePackages && q == d.releasePackages[x]
  }

  /** Repository dependencies are keyed by recorded repositories and stem from recorded packages' dependencies. */
  ghost predicate RepoDepsJustified(d: Distribution, repos: map<Name, set<Name>>, repoDeps: map<Name, set<Name>>) {
    && repoDeps.Keys <= repos.Keys
    && (forall r, q :: r in repoDeps && q in repoDeps[r] ==> DependedOn(d, repos, r, q))
  }

  /** Each stored organisation is one of `orgas`, with the URL read from the source URL of a recorded package of that organisation. */
  ghost predicate OrgaUrlsJustified(d: Distribution, orgas: seq<string>, pkg2repo: map<Name, Name>, orgaUrl: map<string, string>) {
    forall o :: o in orgaUrl ==>
      (o in orgas && exists p :: p in pkg2repo && OrgaEntry(d, p) == Some((o, orgaUrl[o])))
  }

  /** The organisation of `p` has its URL stored. */
  ghost predicate OrgaStored(d: Distribution, p: Name, orgaUrl: map<string, string>) {
    OrgaEntry(d, p).Some? && OrgaEntry(d, p).value.0 in orgaUrl
  }

  /** The organisation of every recorded package has its URL stored. */
  ghost predicate OrgaUrlsComplete(d: Distribution, pkg2repo: map<Name, Name>, orgaUrl: map<string, string>) {
    forall p {:trigger OrgaStored(d, p, orgaUrl)} :: p in pkg2repo ==> OrgaStored(d, p, orgaUrl)
  }

  ghost predicate Invariant(d: Distribution, orgas: seq<string>, chosen: set<Name>, st: State) {
    && PkgsRecorded(d, chosen, st.pkgs, st.repos, st.pkg2repo) && ReposGrouped(st.repos, st.pkg2repo)
    && RepoDepsJustified(d, st.repos, st.repoDeps) && OrgaUrlsJustified(d, orgas, st.pkg2repo, st.orgaUrl)
    && OrgaUrlsComplete(d, st.pkg2repo, st.orgaUrl)
  }

  /** Nothing recorded is ever dropped: mapped packages, groups, repository dependencies and stored organisations only grow. */
  ghost predicate Grown(st0: State, st: State) {
    && st0.pkg2repo.Keys <= st.pkg2repo.Keys
    && st0.orgaUrl.Keys <= st.orgaUrl.Keys
    && (forall r :: r in st0.repos ==> r in st.repos && st0.repos[r] <= st.repos[r])
    && (forall r :: r in st0.repoDeps ==> r in st.repoDeps && st0.repoDeps[r] <= st.repoDeps[r])
  }

  /** What a repository depends on only grows. */
  lemma GrownGet(st0: State, st: State, r: Name)
    requires Grown(st0, st)
    ensures Get(st0.repoDeps, r) <= Get(st.repoDeps, r)
  {
  }

  lemma GrownTrans(st0: State, st1: State, st2: State)
    requires Grown(st0, st1) && Grown(st1, st2)
    ensures Grown(st0, st2)
  {
  }

  /** The state after the recording step of `_analyse_pkg` that stores `rec` for `p`. */
  function AfterRecord(d: Distribution, st: State, p: Name, rec: PkgRecord): State
    requires p in d.releasePackages && OrgaEntry(d, p).Some?
  {
    var r := d.releasePackages[p];
    st.(orgaUrl := st.orgaUrl[OrgaEntry(d, p).value.0 := OrgaEntry(d, p).value.1],
        repos := st.repos[r := Get(st.repos, r) + {p}],
        pkg2repo := st.pkg2repo[p := r],
        pkgs := st.pkgs[p := rec])
  }

  lemma RecordKeepsMapped(d: Distribution, chosen: set<Name>, st: State, p: Name, rec: PkgRecord)
    requires PkgsRecorded(d, chosen, st.pkgs, st.repos, st.pkg2repo)
    requires p in d.releasePackages && OrgaEntry(d, p).Some? && p in chosen
    ensures var st' := AfterRecord(d, st, p, rec);
      forall x :: x in st'.pkg2repo ==>
        && x in chosen && x in d.releasePackages
        && st'.pkg2repo[x] == d.releasePackages[x]
        && st'.pkg2repo[x] in st'.repos && x in st'.repos[st'.pkg2repo[x]]
  {
    var st' := AfterRecord(d, st, p, rec);
    forall x | x in st'.pkg2repo
      ensures x in chosen && x in d.releasePackages && st'.pkg2repo[x] == d.releasePackages[x]
      ensures st'.pkg2repo[x] in st'.repos && x in st'.repos[st'.pkg2repo[x]]
    {
      if x != p {
        assert x in st.pkg2repo;
      }
    }
  }

  lemma RecordKeepsRecords(d: Distribution, chosen: set<Name>, st: State, p: Name, rec: PkgRecord)
    requires PkgsRecorded(d, chosen, st.pkgs, st.repos, st.pkg2repo)
    requires p in d.releasePackages && OrgaEntry(d, p).Some?
    requires rec.depth <= MaxDepth && RecordOf(d, p, rec.depth) == Some(rec)
    ensures var st' := AfterRecord(d, st, p, rec);
      forall x :: x in st'.pkgs ==>
        st'.pkgs[x].depth <= MaxDepth && RecordOf(d, x, st'.pkgs[x].depth) == Some(st'.pkgs[x])
  {
    var st' := AfterRecord(d, st, p, rec);
    forall x | x in st'.pkgs
      ensures st'.pkgs[x].depth <= MaxDepth && RecordOf(d, x, st'.pkgs[x].depth) == Some(st'.pkgs[x])
    {
      if x != p {
        assert st'.pkgs[x] == st.pkgs[x] && RecordOf(d, x, st.pkgs[x].depth) == Some(st.pkgs[x]);
      }
    }
  }

  lemma RecordKeepsReposGrouped(d: Distribution, chosen: set<Name>, st: State, p: Name, rec: PkgRecord)
    requires ReposGrouped(st.repos, st.pkg2repo) && PkgsRecorded(d, chosen, st.pkgs, st.repos, st.pkg2repo)
    requires p in d.releasePackages && OrgaEntry(d, p).Some?
    ensures ReposGrouped(AfterRecord(d, st, p, rec).repos, AfterRecord(d, st, p, rec).pkg2repo)
  {
    var st' := AfterRecord(d, st, p, rec);
    forall r1, q | r1 in st'.repos && q in st'.repos[r1]
      ensures q in st'.pkg2repo && st'.pkg2repo[q] == r1
    {
      if q != p {
        assert r1 in st.repos && q in st.repos[r1];
      }
    }
  }

  lemma RecordKeepsRepoDeps(d: Distribution, st: State, p: Name, rec: PkgRecord)
    requires p in d.releasePackages && OrgaEntry(d, p).Some? && RepoDepsJustified(d, st.repos, st.repoDeps)
    ensures RepoDepsJustified(d, AfterRecord(d, st, p, rec).repos, AfterRecord(d, st, p, rec).repoDeps)
  {
    var st' := AfterRecord(d, st, p, rec);
    forall r1, q | r1 in st'.repoDeps && q in st'.repoDeps[r1]
      ensures DependedOn(d, st'.repos, r1, q)
    {
      assert DependedOn(d, st.repos, r1, q);
      var x, y :| r1 in st.repos && x in st.repos[r1] && x in d.deps && y in d.deps[x] &&
        y in d.releasePackages && q == d.releasePackages[y];
      assert x in st'.repos[r1];
    }
  }

  lemma RecordKeepsOrgaUrls(d: Distribution, orgas: seq<string>, st: State, p: Name, rec: PkgRecord)
    requires OrgaUrlsJustified(d, orgas, st.pkg2repo, st.orgaUrl)
    requires p in d.releasePackages && OrgaEntry(d, p).Some? && Recordable(d, orgas, p)
    ensures OrgaUrlsJustified(d, orgas, AfterRecord(d, st, p, rec).pkg2repo, AfterRecord(d, st, p, rec).orgaUrl)
  {
    var st' := AfterRecord(d, st, p, rec);
    forall o | o in st'.orgaUrl
      ensures o in orgas && exists x :: x in st'.pkg2repo && OrgaEntry(d, x) == Some((o, st'.orgaUrl[o]))
    {
      if o == OrgaEntry(d, p).value.0 {
        assert p in st'.pkg2repo;
      } else {
        var x :| x in st.pkg2repo && OrgaEntry(d, x) == Some((o, st.orgaUrl[o]));
        assert x in st'.pkg2repo;
      }
    }
  }

  /** Recording keeps every recorded package's organisation stored, and stores that of `p`. */
  lemma {:induction false} RecordKeepsOrgaUrlsComplete(d: Distribution, st: State, p: Name, rec: PkgRecord)
    requires OrgaUrlsComplete(d, st.pkg2repo, st.orgaUrl)
    requires p in d.releasePackages && OrgaEntry(d, p).Some?
    ensures OrgaUrlsComplete(d, AfterRecord(d, st, p, rec).pkg2repo, AfterRecord(d, st, p, rec).orgaUrl)
  {
    var st' := AfterRecord(d, st, p, rec);
    forall x | x in st'.pkg2repo
      ensures OrgaStored(d, x, st'.orgaUrl)
    {
      if x != p {
        assert x in st.pkg2repo && OrgaStored(d, x, st.orgaUrl);
      }
    }
  }

  /** Recording only adds to the state. */
  lemma RecordGrows(d: Distribution, st: State, p: Name, rec: PkgRecord)
    requires p in d.releasePackages && OrgaEntry(d, p).Some?
    ensures Grown(st, AfterRecord(d, st, p, rec))
    ensures AfterRecord(d, st, p, rec).pkg2repo.Keys == st.pkg2repo.Keys + {p}
  {
  }

  lemma RecordKeepsPkgsRecorded(d: Distribution, chosen: set<Name>, st: State, p: Name, rec: PkgRecord)
    requires PkgsRecorded(d, chosen, st.pkgs, st.repos, st.pkg2repo)
    requires p in chosen && p in d.releasePackages && OrgaEntry(d, p).Some?
    requires rec.depth <= MaxDepth && RecordOf(d, p, rec.depth) == Some(rec)
    ensures var st' := AfterRecord(d, st, p, rec); PkgsRecorded(d, chosen, st'.pkgs, st'.repos, st'.pkg2repo)
  {
    RecordKeepsMapped(d, chosen, st, p, rec);
    RecordKeepsRecords(d, chosen, st, p, rec);
  }

  /** Recording a chosen package keeps the invariant. */
  lemma RecordKeepsInvariant(d: Distribution, orgas: seq<string>, chosen: set<Name>, st: State, p: Name, rec: PkgRecord)
    requires Invariant(d, orgas, chosen, st)
    requires p in chosen && p in d.releasePackages && OrgaEntry(d, p).Some? && Recordable(d, orgas, p)
    requires rec.depth <= MaxDepth && RecordOf(d, p, rec.depth) == Some(rec)
    ensures Invariant(d, orgas, chosen, AfterRecord(d, st, p, rec))
  {
    RecordKeepsPkgsRecorded(d, chosen, st, p, rec);
    RecordKeepsReposGrouped(d, chosen, st, p, rec);
    RecordKeepsRepoDeps(d, st, p, rec);
    RecordKeepsOrgaUrls(d, orgas, st, p, rec);
    RecordKeepsOrgaUrlsComplete(d, st, p, rec);
  }

  /** The state after `_repo_deps[r].add(q)`. */
  function AfterRepoDep(st: State, r: Name, q: Name): State {
    st.(repoDeps := st.repoDeps[r := Get(st.repoDeps, r) + {q}])
  }

  /** Adding `q`, the repository of a dependency of a package recorded in `r`, keeps repository dependencies justified. */
  lemma AddedDepJustified(d: Distribution, repos: map<Name, set<Name>>, repoDeps: map<Name, set<Name>>, r: Name, p: Name, x: Name)
    requires RepoDepsJustified(d, repos, repoDeps)
    requires r in repos && p in repos[r] && p in d.deps && x in d.deps[p] && x in d.releasePackages
    ensures RepoDepsJustified(d, repos, repoDeps[r := Get(repoDeps, r) + {d.releasePackages[x]}])
  {
    var rd := repoDeps[r := Get(repoDeps, r) + {d.releasePackages[x]}];
    forall r1, q | r1 in rd && q in rd[r1]
      ensures DependedOn(d, repos, r1, q)
    {
      if r1 == r && q == d.releasePackages[x] {
        assert p in repos[r1];
      } else {
        assert r1 in repoDeps && q in repoDeps[r1];
      }
    }
  }

  /** Adding the repository of a dependency `x` of a recorded package `p` under `p`'s repository keeps the invariant and only adds. */
  lemma RepoDepKeepsInvariant(d: Distribution, orgas: seq<string>, chosen: set<Name>, st: State, p: Name, x: Name)
    requires Invariant(d, orgas, chosen, st)
    requires p in st.pkg2repo && p in d.releasePackages && p in d.deps && x in d.deps[p] && x in d.releasePackages
    ensures Invariant(d, orgas, chosen, AfterRepoDep(st, d.releasePackages[p], d.releasePackages[x]))
    ensures Grown(st, AfterRepoDep(st, d.releasePackages[p], d.releasePackages[x]))
  {
    var r := d.releasePackages[p];
    assert st.pkg2repo[p] == r && r in st.repos && p in st.repos[r];
    AddedDepJustified(d, st.repos, st.repoDeps, r, p, x);
  }

  /** Under the invariant, the stored organisations are exactly those of the recorded packages. */
  lemma {:induction false} OrgaUrlsExact(d: Distribution, orgas: seq<string>, chosen: set<Name>, st: State)
    requires Invariant(d, orgas, chosen, st)
    ensures forall o :: o in st.orgaUrl <==>
      exists p :: p in st.pkg2repo && OrgaEntry(d, p).Some? && OrgaEntry(d, p).value.0 == o
  {
    forall o
      ensures o in st.orgaUrl <==> exists p :: p in st.pkg2repo && OrgaEntry(d, p).Some? && OrgaEntry(d, p).value.0 == o
    {
      if exists p :: p in st.pkg2repo && OrgaEntry(d, p).Some? && OrgaEntry(d, p).value.0 == o {
        var p :| p in st.pkg2repo && OrgaEntry(d, p).Some? && OrgaEntry(d, p).value.0 == o;
        assert OrgaStored(d, p, st.orgaUrl);
      }
    }
  }

  /** `clean_out` keeps the invariant. */
  lemma CleanOutKeepsInvariant(d: Distribution, orgas: seq<string>, chosen: set<Name>, st: State)
    requires Invariant(d, orgas, chosen, st)
    ensures Invariant(d, orgas, chosen, st.(repoDeps := CleanedOut(st.repoDeps, st.repos.Keys)))
  {
    var st' := st.(repoDeps := CleanedOut(st.repoDeps, st.repos.Keys));
    forall r, q | r in st'.repoDeps && q in st'.repoDeps[r]
      ensures DependedOn(d, st'.repos, r, q)
    {
      assert DependedOn(d, st.repos, r, q);
    }
  }

  /**
   * Every package mapped in `keys` but not in `keys0` has the repository of
   * each of its dependencies among its own repository's dependencies.
   */
  ghost predicate DepsRecorded(d: Distribution, repoDeps: map<Name, set<Name>>, keys0: set<Name>, keys: set<Name>) {
    forall p, x :: p in keys && p !in keys0 && p in d.releasePackages && p in d.deps && x in d.deps[p] && x in d.releasePackages ==>
      d.releasePackages[x] in Get(repoDeps, d.releasePackages[p])
  }

  /** As `DepsRecorded`, for the dependencies whose repository is known and is not the package's own. */
  ghost predicate DepsKept(d: Distribution, known: set<Name>, repoDeps: map<Name, set<Name>>, keys0: set<Name>, keys: set<Name>) {
    forall p, x ::
      (p in keys && p !in keys0 && p in d.releasePackages && p in d.deps && x in d.deps[p] && x in d.releasePackages &&
       d.releasePackages[x] in known && d.releasePackages[x] != d.releasePackages[p]) ==>
      d.releasePackages[x] in Get(repoDeps, d.releasePackages[p])
  }

  /**
   * Repository `r` depends on `q` exactly when a package recorded in `r`
   * depends on a package of `q`, `q` is recorded, and `q` is not `r`.
   */
  ghost predicate RepoDepsExact(d: Distribution, repos: map<Name, set<Name>>, repoDeps: map<Name, set<Name>>) {
    forall r, q :: q in Get(repoDeps, r) <==> (DependedOn(d, repos, r, q) && q in repos && q != r)
  }

  lemma DepsRecordedNone(d: Distribution, repoDeps: map<Name, set<Name>>, keys0: set<Name>, keys: set<Name>)
    requires keys <= keys0
    ensures DepsRecorded(d, repoDeps, keys0, keys)
  {
  }

  /** What a package's repository depends on only grows, so recorded dependencies stay recorded. */
  lemma DepsRecordedGrows(d: Distribution, st0: State, st: State, keys0: set<Name>, keys: set<Name>)
    requires Grown(st0, st) && DepsRecorded(d, st0.repoDeps, keys0, keys)
    ensures DepsRecorded(d, st.repoDeps, keys0, keys)
  {
    forall p, x | p in keys && p !in keys0 && p in d.releasePackages && p in d.deps && x in d.deps[p] && x in d.releasePackages
      ensures d.releasePackages[x] in Get(st.repoDeps, d.releasePackages[p])
    {
      GrownGet(st0, st, d.releasePackages[p]);
    }
  }

  /** Packages new since `keys1` and packages new between `keys0` and `keys1` are all the packages new since `keys0`. */
  lemma DepsRecordedTrans(d: Distribution, repoDeps: map<Name, set<Name>>, keys0: set<Name>, keys1: set<Name>, keys: set<Name>)
    requires DepsRecorded(d, repoDeps, keys0, keys1) && DepsRecorded(d, repoDeps, keys1, keys)
    ensures DepsRecorded(d, repoDeps, keys0, keys)
  {
    forall p, x | p in keys && p !in keys0 && p in d.releasePackages && p in d.deps && x in d.deps[p] && x in d.releasePackages
      ensures d.releasePackages[x] in Get(repoDeps, d.releasePackages[p])
    {
      if p !in keys1 {
        assert p in keys && p !in keys1;
      } else {
        assert p in keys1 && p !in keys0;
      }
    }
  }

  /** Once all dependencies of `p` have their repositories recorded, `p` need no longer be excluded. */
  lemma DepsRecordedAdd(d: Distribution, repoDeps: map<Name, set<Name>>, p: Name, keys0: set<Name>, keys: set<Name>)
    requires DepsRecorded(d, repoDeps, keys0 + {p}, keys) && p in d.releasePackages
    requires p in d.deps ==> forall x :: x in d.deps[p] && x in d.releasePackages ==>
      d.releasePackages[x] in Get(repoDeps, d.releasePackages[p])
    ensures DepsRecorded(d, repoDeps, keys0, keys)
  {
    forall q, x | q in keys && q !in keys0 && q in d.releasePackages && q in d.deps && x in d.deps[q] && x in d.releasePackages
      ensures d.releasePackages[x] in Get(repoDeps, d.releasePackages[q])
    {
      if q != p {
        assert q !in keys0 + {p};
      }
    }
  }

  /** `clean_out` keeps every recorded dependency on a known repository other than the package's own. */
  lemma CleanedOutDepsKept(d: Distribution, repoDeps: map<Name, set<Name>>, known: set<Name>, keys0: set<Name>, keys: set<Name>)
    requires DepsRecorded(d, repoDeps, keys0, keys)
    ensures DepsKept(d, known, CleanedOut(repoDeps, known), keys0, keys)
  {
    forall p, x | p in keys && p !in keys0 && p in d.releasePackages && p in d.deps && x in d.deps[p] && x in d.releasePackages &&
      d.releasePackages[x] in known && d.releasePackages[x] != d.releasePackages[p]
      ensures d.releasePackages[x] in Get(CleanedOut(repoDeps, known), d.releasePackages[p])
    {
      var r := d.releasePackages[p];
      assert d.releasePackages[x] in Get(repoDeps, r);
      CleanedOutKeeps(repoDeps, known, r, d.releasePackages[x]);
    }
  }

  /**
   * After `clean_out`, when every recorded package's dependencies were
   * recorded, each repository depends on exactly the recorded repositories,
   * other than itself, of its packages' dependencies.
   */
  lemma RepoDepsAreExact(d: Distribution, orgas: seq<string>, chosen: set<Name>, st: State)
    requires Invariant(d, orgas, chosen, st)
    requires DepsKept(d, st.repos.Keys, st.repoDeps, {}, st.pkg2repo.Keys)
    requires forall r :: r in st.repoDeps ==> st.repoDeps[r] <= st.repos.Keys && r !in st.repoDeps[r]
    ensures RepoDepsExact(d, st.repos, st.repoDeps)
  {
    forall r, q
      ensures q in Get(st.repoDeps, r) <==> (DependedOn(d, st.repos, r, q) && q in st.repos && q != r)
    {
      if q in Get(st.repoDeps, r) {
        assert r in st.repoDeps && q in st.repoDeps[r];
      }
      if DependedOn(d, st.repos, r, q) && q in st.repos && q != r {
        var p, x :| r in st.repos && p in st.repos[r] && p in d.deps && x in d.deps[p] &&
          x in d.releasePackages && q == d.releasePackages[x];
        assert p in st.pkg2repo && st.pkg2repo[p] == r;
        assert p in d.releasePackages && d.releasePackages[p] == r;
      }
    }
  }

  /** The packages of a recorded repository are recorded. */
  lemma RepoPackagesRecorded(d: Distribution, chosen: set<Name>, st: State, r: Name)
    requires PkgsRecorded(d, chosen, st.pkgs, st.repos, st.pkg2repo) && ReposGrouped(st.repos, st.pkg2repo)
    requires r in st.repos
    ensures forall p :: p in st.repos[r] ==> p in st.pkgs
  {
    forall p | p in st.repos[r]
      ensures p in st.pkgs
    {
      assert p in st.pkg2repo;
    }
  }

  /** A recorded repository is a released repository with a source entry. */
  lemma RecordedRepoKnown(d: Distribution, chosen: set<Name>, st: State, r: Name)
    requires Linked(d)
    requires PkgsRecorded(d, chosen, st.pkgs, st.repos, st.pkg2repo) && ReposGrouped(st.repos, st.pkg2repo)
    requires r in st.repos
    ensures r in d.repositories && d.repositories[r].source.Some? && d.repositories[r].release.Some?
  {
    var p :| p in st.repos[r];
    assert p in st.pkg2repo && st.pkg2repo[p] == r;
    assert Resolvable(d, p) by {
      assert RecordOf(d, p, st.pkgs[p].depth).Some?;
    }
    assert SourceOf(d, p).Some?;
  }

  /** `repo_collect`'s entry for recorded repository `r`. */
  function SummaryOf(d: Distribution, pkgs: map<Name, PkgRecord>, repos: map<Name, set<Name>>, repoDeps: map<Name, set<Name>>, r: Name): (s: RepoSummary)
    requires r in repos && r in d.repositories
    requires d.repositories[r].source.Some? && d.repositories[r].release.Some?
    requires forall p :: p in repos[r] ==> p in pkgs
    ensures s.name == r && s.deps == Get(repoDeps, r) && s.packagesDependedOn == repos[r]
    ensures s.packages.Keys == repos[r]
    ensures forall p :: p in s.packages ==> s.packages[p] == pkgs[p]
  {
    var repo := d.repositories[r];
    RepoSummary(
      Get(repoDeps, r), r, repo.source.value.url, repo.source.value.version, repos[r],
      map p | p in repos[r] :: pkgs[p],
      repo.release.value.packageNames)
  }

  /** Every package of a repository's summary is mapped to that repository and carries the record read for it at a depth within the bound. */
  lemma SummaryPackagesRecorded(d: Distribution, orgas: seq<string>, chosen: set<Name>, st: State, r: Name)
    requires Linked(d) && Invariant(d, orgas, chosen, st) && r in st.repos
    ensures r in d.repositories && d.repositories[r].source.Some? && d.repositories[r].release.Some?
    ensures forall p :: p in st.repos[r] ==> p in st.pkgs
    ensures forall p :: p in SummaryOf(d, st.pkgs, st.repos, st.repoDeps, r).packages ==>
      && st.pkg2repo[p] == r && d.releasePackages[p] == r
      && SummaryOf(d, st.pkgs, st.repos, st.repoDeps, r).packages[p].depth <= MaxDepth
      && RecordOf(d, p, SummaryOf(d, st.pkgs, st.repos, st.repoDeps, r).packages[p].depth) == Some(SummaryOf(d, st.pkgs, st.repos, st.repoDeps, r).packages[p])
  {
    RecordedRepoKnown(d, chosen, st, r);
    RepoPackagesRecorded(d, chosen, st, r);
    var s := SummaryOf(d, st.pkgs, st.repos, st.repoDeps, r);
    forall p | p in s.packages
      ensures s.packages[p].depth <= MaxDepth && RecordOf(d, p, s.packages[p].depth) == Some(s.packages[p])
    {
      assert s.packages[p] == st.pkgs[p] && RecordOf(d, p, st.pkgs[p].depth) == Some(st.pkgs[p]);
    }
  }

  /** Every recorded repository is a released repository with a source entry, and its packages are recorded. */
  ghost predicate ReposKnown(d: Distribution, repos: map<Name, set<Name>>, pkgs: map<Name, PkgRecord>) {
    forall r :: r in repos ==>
      && r in d.repositories && d.repositories[r].source.Some? && d.repositories[r].release.Some?
      && forall p :: p in repos[r] ==> p in pkgs
  }

  /** What `repo_collect` returns: the summary of every recorded repository. */
  ghost function Collected(d: Distribution, pkgs: map<Name, PkgRecord>, repos: map<Name, set<Name>>, repoDeps: map<Name, set<Name>>): (c: map<Name, RepoSummary>)
    requires ReposKnown(d, repos, pkgs)
    ensures c.Keys == repos.Keys
    ensures forall r :: r in c ==> c[r] == SummaryOf(d, pkgs, repos, repoDeps, r)
  {
    map r | r in repos :: SummaryOf(d, pkgs, repos, repoDeps, r)
  }

  lemma InvariantReposKnown(d: Distribution, orgas: seq<string>, chosen: set<Name>, st: State)
    requires Linked(d) && Invariant(d, orgas, chosen, st)
    ensures ReposKnown(d, st.repos, st.pkgs)
  {
    forall r | r in st.repos
      ensures r in d.repositories && d.repositories[r].source.Some? && d.repositories[r].release.Some?
      ensures forall p :: p in st.repos[r] ==> p in st.pkgs
    {
      RecordedRepoKnown(d, chosen, st, r);
      RepoPackagesRecorded(d, chosen, st, r);
    }
  }

  /** The release packages `_analyse_pkg` records. */
  ghost function ChosenOf(d: Distribution, orgas: seq<string>): (chosen: set<Name>)
    ensures forall p :: p in chosen <==> p in d.releasePackages && Recordable(d, orgas, p)
  {
    set p | p in d.releasePackages && Recordable(d, orgas, p)
  }

  /** In a linked snapshot whose source URLs have an organisation field, a recordable package whose package.xml is readable can be resolved. */
  lemma RecordableResolvable(d: Distribution, orgas: seq<string>)
    requires Linked(d) && SourceUrls(d)
    requires forall p :: p in d.releasePackages && Recordable(d, orgas, p) ==> Readable(d, p)
    ensures forall p :: p in d.releasePackages && Recordable(d, orgas, p) ==> Resolvable(d, p)
  {
  }

  /** The elements of `s` in some order (a Python set's iteration order is unspecified). */
  method SetToSeq(s: set<Name>) returns (xs: seq<Name>)
    ensures NoDup(xs) && forall x :: x in xs <==> x in s
  {
    xs := [];
    var rest := s;
    while rest != {}
      invariant rest <= s && NoDup(xs)
      invariant forall x :: x in xs <==> x in s && x !in rest
      decreases |rest|
    {
      var x :| x in rest;
      NoDupAppend(xs, x);
      xs := xs + [x];
      rest := rest - {x};
    }
  }

  /**
   * The loop of `clean_out`: each dependency set in turn is intersected
   * with the known repositories, then loses the repository itself.
   */
  method CleanOutDeps(repoDeps: map<Name, set<Name>>, known: set<Name>) returns (r: map<Name, set<Name>>)
    ensures r == CleanedOut(repoDeps, known)
  {
    r := repoDeps;
    var todo := repoDeps.Keys;
    while todo != {}
      invariant todo <= repoDeps.Keys
      invariant forall rd :: rd in r <==> rd in repoDeps
      invariant forall rd :: rd in r ==> r[rd] == if rd in todo then repoDeps[rd] else repoDeps[rd] * known - {rd}
      decreases |todo|
    {
      var rd :| rd in todo;
      r := r[rd := r[rd] * known];
      if rd in r[rd] {
        r := r[rd := r[rd] - {rd}];
      }
      todo := todo - {rd};
    }
  }

  class CacheAnalyser {
    const distro: Distribution
    const distribution: Distribution
    const orgas: seq<string>
    const maxDepth: int
    /** The packages whose organisation is among `orgas`: those `_analyse_pkg` records. */
    ghost const chosen: set<Name>
    var pkgs: map<Name, PkgRecord>
    var repos: map<Name, set<Name>>
    var repoDeps: map<Name, set<Name>>
    var pkg2repo: map<Name, Name>
    var orgaUrl: map<string, string>
    var roots: seq<Name>
    var collected: map<Name, RepoSummary>

    function St(): State
      reads this`pkgs, this`repos, this`repoDeps, this`pkg2repo, this`orgaUrl
    {
      State(pkgs, repos, repoDeps, pkg2repo, orgaUrl)
    }

    /**
     * What the resolver relies on about its inputs: linked snapshots whose
     * source URLs all have an organisation field, the tagged file's
     * packages known to the whole distribution, and a readable package.xml
     * for every chosen release package (an unreadable one that the run
     * reaches raises out of the whole run).
     */
    ghost predicate Inputs() {
      && Linked(distro) && SourceUrls(distro) && Covers(distro, distribution)
      && maxDepth == MaxDepth
      && (forall p {:trigger Recordable(distro, orgas, p)} :: p in chosen <==> p in distro.releasePackages && Recordable(distro, orgas, p))
      && (forall p {:trigger Resolvable(distro, p)} :: p in chosen ==> Resolvable(distro, p))
    }

    /**
     * The inputs' facts and the state's invariant: every recorded package
     * is mapped, grouped and recorded; repository dependencies stem from
     * recorded packages; and the stored organisation URLs are exactly those
     * of the recorded packages (`OrgaUrlsJustified`, `OrgaUrlsComplete`).
     */
    ghost predicate Valid()
      reads this`pkgs, this`repos, this`repoDeps, this`pkg2repo, this`orgaUrl
    {
      Inputs() && Invariant(distro, orgas, chosen, St())
    }

    /** `__init__` without the network: the snapshots and organisations are given. */
    constructor (distro: Distribution, distribution: Distribution, orgas: seq<string>)
      requires Linked(distro) && SourceUrls(distro) && Covers(distro, distribution)
      requires forall p :: p in distro.releasePackages && Recordable(distro, orgas, p) ==> Readable(distro, p)
      ensures Valid()
      ensures this.distro == distro && this.distribution == distribution && this.orgas == orgas
      ensures pkgs == map[] && repos == map[] && repoDeps == map[] && pkg2repo == map[] && orgaUrl == map[]
      ensures roots == [] && collected == map[]
    {
      this.distro := distro;
      this.distribution := distribution;
      this.orgas := orgas;
      maxDepth := MaxDepth;
      chosen := ChosenOf(distro, orgas);
      pkgs := map[];
      repos := map[];
      repoDeps := map[];
      pkg2repo := map[];
      orgaUrl := map[];
      roots := [];
      collected := map[];
      RecordableResolvable(distro, orgas);
    }

    /**
     * The recording step of `_analyse_pkg` for a chosen package: store the
     * organisation URL, add the package to its repository's group, map it
     * to the repository and store its record.
     */
    method Record(pkgName: Name, depth: int)
      requires Resolvable(distro, pkgName)
      modifies this`pkgs, this`repos, this`pkg2repo, this`orgaUrl
      ensures St() == AfterRecord(distro, old(St()), pkgName, RecordOf(distro, pkgName, depth).value)
    {
      var repoName := distro.releasePackages[pkgName];
      var url := SourceOf(distro, pkgName).value.url;
      orgaUrl := orgaUrl[Lower(Orga(url)) := OrgaUrl(url)];
      repos := repos[repoName := Get(repos, repoName) + {pkgName}];
      pkg2repo := pkg2repo[pkgName := repoName];
      pkgs := pkgs[pkgName := RecordOf(distro, pkgName, depth).value];
    }

    /** Recording a chosen package within the depth bound keeps the invariant and only adds to the state. */
    method RecordChosen(pkgName: Name, depth: int)
      requires Valid() && pkgName in chosen && depth <= maxDepth
      modifies this`pkgs, this`repos, this`pkg2repo, this`orgaUrl
      ensures Valid() && Grown(old(St()), St())
      ensures OrgaEntry(distro, pkgName).Some? && pkgName in distro.releasePackages && pkgName in pkgs
      ensures pkg2repo.Keys == old(pkg2repo.Keys) + {pkgName}
      ensures St() == AfterRecord(distro, old(St()), pkgName, pkgs[pkgName]) && pkgs[pkgName].depth == depth
    {
      ghost var before := St();
      assert Recordable(distro, orgas, pkgName) && Resolvable(distro, pkgName);
      Record(pkgName, depth);
      RecordKeepsInvariant(distro, orgas, chosen, before, pkgName, RecordOf(distro, pkgName, depth).value);
      RecordGrows(distro, before, pkgName, RecordOf(distro, pkgName, depth).value);
    }

    /**
     * `_analyse_pkg(pkg_name, depth)`: beyond the depth bound nothing
     * happens; otherwise a package whose source organisation is among
     * `orgas` is recorded and each of its dependencies expanded one level
     * deeper. There is no memo: a revisited package is recorded again.
     * The ghost `k` names the levels left, `max_depth - depth`.
     */
    method AnalysePkg(pkgName: Name, depth: int, ghost k: int)
      requires Valid() && pkgName in distro.releasePackages && k == maxDepth - depth
      modifies this`pkgs, this`repos, this`repoDeps, this`pkg2repo, this`orgaUrl
      decreases MaxDepth + 1 - depth, 4
      ensures Valid() && Grown(old(St()), St())
      ensures depth > maxDepth || pkgName !in chosen ==> St() == old(St())
      ensures depth <= maxDepth && pkgName in chosen ==>
        && pkgName in pkg2repo && pkg2repo[pkgName] == distro.releasePackages[pkgName]
        && forall x :: x in distro.deps[pkgName] ==> distro.releasePackages[x] in Get(repoDeps, pkg2repo[pkgName])
      ensures Covered(distro, chosen, pkgName, k, pkg2repo.Keys)
      ensures Explained(distro, chosen, pkgName, k, old(pkg2repo.Keys), pkg2repo.Keys)
      ensures DepsRecorded(distro, repoDeps, old(pkg2repo.Keys), pkg2repo.Keys)
    {
      if depth > maxDepth {
        return;
      }
      var repo := distro.repositories[distro.releasePackages[pkgName]];
      if repo.source.Some? {
        var url := repo.source.value.url;
        if Lower(Orga(url)) in orgas {
          assert Recordable(distro, orgas, pkgName);
          RecordAndExpand(pkgName, depth, repo.source.value.name, k);
        } else {
          assert !Recordable(distro, orgas, pkgName);
        }
      } else {
        assert !Recordable(distro, orgas, pkgName);
      }
    }

    /**
     * The body of `_analyse_pkg` for a package of a chosen organisation
     * within the depth bound: record it, then expand its dependencies.
     */
    method RecordAndExpand(pkgName: Name, depth: int, srcName: Name, ghost k: int)
      requires Valid() && pkgName in chosen && depth <= maxDepth && k == maxDepth - depth
      requires pkgName in distro.releasePackages && srcName == distro.releasePackages[pkgName]
      modifies this`pkgs, this`repos, this`repoDeps, this`pkg2repo, this`orgaUrl
      decreases MaxDepth + 1 - depth, 3
      ensures Valid() && Grown(old(St()), St())
      ensures pkgName in pkg2repo && pkg2repo[pkgName] == srcName
      ensures forall x :: x in distro.deps[pkgName] ==> distro.releasePackages[x] in Get(repoDeps, srcName)
      ensures Covered(distro, chosen, pkgName, k, pkg2repo.Keys)
      ensures Explained(distro, chosen, pkgName, k, old(pkg2repo.Keys), pkg2repo.Keys)
      ensures DepsRecorded(distro, repoDeps, old(pkg2repo.Keys), pkg2repo.Keys)
    {
      ghost var before := St();
      RecordChosen(pkgName, depth);
      ExpandDeps(pkgName, depth, srcName, before, k);
    }

    /**
     * The loop over the dependencies of a recorded package: add each
     * dependency's repository to `_repo_deps[srcName]`, then analyse the
     * dependency one level deeper.
     */
    method ExpandDeps(pkgName: Name, depth: int, srcName: Name, ghost st0: State, ghost k: int)
      requires Valid() && pkgName in pkg2repo && depth <= maxDepth && k == maxDepth - depth
      requires pkgName in distro.releasePackages && srcName == distro.releasePackages[pkgName]
      requires pkgName in chosen && Grown(st0, St()) && pkg2repo.Keys == st0.pkg2repo.Keys + {pkgName}
      modifies this`pkgs, this`repos, this`repoDeps, this`pkg2repo, this`orgaUrl
      decreases MaxDepth + 1 - depth, 2
      ensures Valid() && Grown(st0, St()) && pkgName in distro.deps
      ensures pkgName in pkg2repo && pkg2repo[pkgName] == srcName
      ensures forall x :: x in distro.deps[pkgName] ==> distro.releasePackages[x] in Get(repoDeps, srcName)
      ensures Covered(distro, chosen, pkgName, k, pkg2repo.Keys)
      ensures Explained(distro, chosen, pkgName, k, st0.pkg2repo.Keys, pkg2repo.Keys)
      ensures DepsRecorded(distro, repoDeps, st0.pkg2repo.Keys, pkg2repo.Keys)
    {
      ExplainedSelf(distro, chosen, pkgName, k, st0.pkg2repo.Keys, pkg2repo.Keys);
      DepsRecordedNone(distro, repoDeps, st0.pkg2repo.Keys + {pkgName}, pkg2repo.Keys);
      var deps := distro.deps[pkgName];
      var i := 0;
      while i < |deps|
        invariant 0 <= i <= |deps|
        invariant Valid() && Grown(st0, St()) && pkgName in pkg2repo
        invariant DepsAdded(pkgName, srcName, i)
        invariant Expanded(distro, chosen, pkgName, k, i, st0.pkg2repo.Keys, pkg2repo.Keys)
        invariant DepsRecorded(distro, repoDeps, st0.pkg2repo.Keys + {pkgName}, pkg2repo.Keys)
      {
        ghost var s0 := St();
        ExpandDep(pkgName, depth, srcName, deps, i, st0.pkg2repo.Keys, k);
        GrownTrans(st0, s0, St());
        i := i + 1;
      }
      CoveredStep(distro, chosen, pkgName, k, pkg2repo.Keys);
      DepsRecordedAdd(distro, repoDeps, pkgName, st0.pkg2repo.Keys, pkg2repo.Keys);
    }

    /** The repositories of the first `i` dependencies of `pkgName` are in `_repo_deps[srcName]`. */
    ghost predicate DepsAdded(pkgName: Name, srcName: Name, i: int)
      reads this`repoDeps
    {
      && pkgName in distro.deps && 0 <= i <= |distro.deps[pkgName]|
      && ReposIn(distro, distro.deps[pkgName], i, Get(repoDeps, srcName))
    }

    /**
     * Turn `i` of the loop over `deps`, the dependencies of `pkgName`: add
     * the repository of `deps[i]` to `_repo_deps[srcName]`, then analyse
     * `deps[i]` one level deeper; the loop's invariant holds before and
     * after.
     */
    method ExpandDep(pkgName: Name, depth: int, srcName: Name, deps: seq<Name>, i: int, ghost start: set<Name>, ghost k: int)
      requires Valid() && pkgName in pkg2repo && depth <= maxDepth && k == maxDepth - depth
      requires pkgName in distro.releasePackages && srcName == distro.releasePackages[pkgName]
      requires pkgName in distro.deps && deps == distro.deps[pkgName] && 0 <= i < |deps|
      requires DepsAdded(pkgName, srcName, i)
      requires Expanded(distro, chosen, pkgName, k, i, start, pkg2repo.Keys)
      requires DepsRecorded(distro, repoDeps, start + {pkgName}, pkg2repo.Keys)
      modifies this`pkgs, this`repos, this`repoDeps, this`pkg2repo, this`orgaUrl
      decreases MaxDepth + 1 - depth, 1
      ensures Valid() && Grown(old(St()), St()) && pkgName in pkg2repo
      ensures DepsAdded(pkgName, srcName, i + 1)
      ensures Expanded(distro, chosen, pkgName, k, i + 1, start, pkg2repo.Keys)
      ensures DepsRecorded(distro, repoDeps, start + {pkgName}, pkg2repo.Keys)
    {
      assert pkgName in chosen;
      ghost var s0 := St();
      ghost var keys0, added0 := pkg2repo.Keys, Get(repoDeps, srcName);
      assert Expanded(distro, chosen, pkgName, k, i, start, keys0);
      assert ReposIn(distro, deps, i, added0);
      AddRepoDep(pkgName, srcName, deps[i]);
      ghost var s1 := St();
      AnalysePkg(deps[i], depth + 1, k - 1);
      GrownTrans(s0, s1, St());
      GrownGet(s0, s1, srcName);
      GrownGet(s1, St(), srcName);
      ghost var keys1 := s1.pkg2repo.Keys;
      ghost var keys, added := pkg2repo.Keys, Get(repoDeps, srcName);
      assert Explained(distro, chosen, pkgName, k, keys0, keys1);
      ExplainedVia(distro, chosen, pkgName, deps[i], k, keys0, keys1, keys);
      ReposInSnoc(distro, deps, i, added0, added);
      ExpandedStep(distro, chosen, pkgName, k, i, start, keys0, keys);
      DepsRecordedGrows(distro, s0, St(), start + {pkgName}, keys1);
      DepsRecordedTrans(distro, repoDeps, start + {pkgName}, keys1, keys);
    }

    /**
     * `_repo_deps[srcName].add(dep_repo.name)` for a dependency `x` of the
     * recorded package `pkgName`, whose repository is `srcName`.
     */
    method AddRepoDep(pkgName: Name, srcName: Name, x: Name)
      requires Valid() && pkgName in pkg2repo && pkgName in distro.releasePackages
      requires srcName == distro.releasePackages[pkgName] && x in distro.deps[pkgName]
      modifies this`repoDeps
      ensures Valid() && Grown(old(St()), St())
      ensures St() == AfterRepoDep(old(St()), srcName, distro.releasePackages[x])
      ensures distro.releasePackages[x] in Get(repoDeps, srcName)
    {
      var depRepo := distro.repositories[distro.releasePackages[x]];
      ghost var before := St();
      RepoDepKeepsInvariant(distro, orgas, chosen, before, pkgName, x);
      repoDeps := repoDeps[srcName := Get(repoDeps, srcName) + {depRepo.name}];
      assert St() == AfterRepoDep(before, srcName, distro.releasePackages[x]);
    }

    /** `clean_out` on the analyser's own repository dependencies. */
    method CleanOut()
      requires Valid()
      modifies this`repoDeps
      ensures Valid()
      ensures repoDeps == CleanedOut(old(repoDeps), repos.Keys)
    {
      CleanOutKeepsInvariant(distro, orgas, chosen, St());
      repoDeps := CleanOutDeps(repoDeps, repos.Keys);
    }

    /**
     * `repo_collect`: one summary per recorded repository, with its
     * dependencies, source URL and version, the recorded packages it holds
     * and the packages its release lists.
     */
    method RepoCollect() returns (result: map<Name, RepoSummary>)
      requires ReposKnown(distro, repos, pkgs)
      ensures result.Keys == repos.Keys
      ensures forall r :: r in result ==> result[r] == SummaryOf(distro, pkgs, repos, repoDeps, r)
      ensures result == Collected(distro, pkgs, repos, repoDeps)
    {
      result := map[];
      var todo := repos.Keys;
      while todo != {}
        invariant todo <= repos.Keys
        invariant forall r :: r in result <==> r in repos && r !in todo
        invariant forall r :: r in result ==> result[r] == SummaryOf(distro, pkgs, repos, repoDeps, r)
        decreases |todo|
      {
        var r :| r in todo;
        result := result[r := SummaryOf(distro, pkgs, repos, repoDeps, r)];
        todo := todo - {r};
      }
    }

    /**
     * `analyse_pkg(pkg_names)`: with no roots given, every release package
     * of the tagged distribution file is a root; each root is analysed
     * from depth 0, then `clean_out` runs and the repositories are
     * collected.
     */
    method AnalysePkgs(pkgNames: seq<Name>)
      requires Valid()
      requires forall p :: p in pkgNames ==> p in distro.releasePackages
      modifies this`pkgs, this`repos, this`repoDeps, this`pkg2repo, this`orgaUrl, this`roots, this`collected
      ensures Valid() && ReposKnown(distro, repos, pkgs)
      ensures RootsFor(pkgNames, roots)
      ensures forall p :: p in roots && p in chosen ==> p in pkg2repo
      ensures Reachable(distro, chosen, roots, MaxDepth) <= pkg2repo.Keys
      ensures pkg2repo.Keys - old(pkg2repo.Keys) <= Reachable(distro, chosen, roots, MaxDepth)
      ensures old(pkg2repo) == map[] ==> pkg2repo.Keys == Reachable(distro, chosen, roots, MaxDepth)
      ensures forall r :: r in repoDeps ==> repoDeps[r] <= repos.Keys && r !in repoDeps[r]
      ensures DepsKept(distro, repos.Keys, repoDeps, old(pkg2repo.Keys), pkg2repo.Keys)
      ensures old(pkg2repo) == map[] ==> RepoDepsExact(distro, repos, repoDeps)
      ensures collected == Collected(distro, pkgs, repos, repoDeps)
    {
      ghost var start := pkg2repo;
      var names := Roots(pkgNames);
      roots := names;
      assert pkg2repo == start;
      AnalyseFrom(names);
    }

    /** The rest of `analyse_pkg` once its roots are fixed: analyse each root from depth 0, clean out, collect. */
    method AnalyseFrom(names: seq<Name>)
      requires Valid() && forall p :: p in names ==> p in distro.releasePackages
      modifies this`pkgs, this`repos, this`repoDeps, this`pkg2repo, this`orgaUrl, this`collected
      ensures Valid() && ReposKnown(distro, repos, pkgs)
      ensures forall p :: p in names && p in chosen ==> p in pkg2repo
      ensures Reachable(distro, chosen, names, MaxDepth) <= pkg2repo.Keys
      ensures pkg2repo.Keys - old(pkg2repo.Keys) <= Reachable(distro, chosen, names, MaxDepth)
      ensures old(pkg2repo) == map[] ==> pkg2repo.Keys == Reachable(distro, chosen, names, MaxDepth)
      ensures forall r :: r in repoDeps ==> repoDeps[r] <= repos.Keys && r !in repoDeps[r]
      ensures DepsKept(distro, repos.Keys, repoDeps, old(pkg2repo.Keys), pkg2repo.Keys)
      ensures old(pkg2repo) == map[] ==> RepoDepsExact(distro, repos, repoDeps)
      ensures collected == Collected(distro, pkgs, repos, repoDeps)
    {
      AnalyseRoots(names);
      ghost var keys := pkg2repo.Keys;
      CleanOutAndCollect(old(pkg2repo.Keys));
      assert pkg2repo.Keys == keys;
    }

    /**
     * `clean_out()` then `repo_collect()` into `repos`, which end every
     * analysis. If every package recorded since `keys0` had its
     * dependencies' repositories recorded, those that are known and not its
     * own survive; from no records at all, the dependencies are exact.
     */
    method CleanOutAndCollect(ghost keys0: set<Name>)
      requires Valid()
      modifies this`repoDeps, this`collected
      ensures Valid() && ReposKnown(distro, repos, pkgs)
      ensures repoDeps == CleanedOut(old(repoDeps), repos.Keys)
      ensures forall r :: r in repoDeps ==> repoDeps[r] <= repos.Keys && r !in repoDeps[r]
      ensures DepsRecorded(distro, old(repoDeps), keys0, pkg2repo.Keys) ==> DepsKept(distro, repos.Keys, repoDeps, keys0, pkg2repo.Keys)
      ensures keys0 == {} && DepsRecorded(distro, old(repoDeps), keys0, pkg2repo.Keys) ==> RepoDepsExact(distro, repos, repoDeps)
      ensures collected == Collected(distro, pkgs, repos, repoDeps)
    {
      ghost var rd := repoDeps;
      CleanOut();
      if DepsRecorded(distro, rd, keys0, pkg2repo.Keys) {
        CleanedOutDepsKept(distro, rd, repos.Keys, keys0, pkg2repo.Keys);
        if keys0 == {} {
          RepoDepsAreExact(distro, orgas, chosen, St());
        }
      }
      InvariantReposKnown(distro, orgas, chosen, St());
      collected := RepoCollect();
    }

    /** The roots of `analyse_pkg`: the given names, or else every release package of the tagged distribution file, each once. */
    ghost predicate RootsFor(pkgNames: seq<Name>, names: seq<Name>) {
      && (pkgNames != [] ==> names == pkgNames)
      && (pkgNames == [] ==> NoDup(names) && forall p :: p in names <==> p in distribution.releasePackages)
    }

    method Roots(pkgNames: seq<Name>) returns (names: seq<Name>)
      ensures RootsFor(pkgNames, names)
    {
      names := pkgNames;
      if names == [] {
        names := SetToSeq(distribution.releasePackages.Keys);
      }
    }

    /** The loop of `analyse_pkg` over its roots, each analysed from depth 0. */
    method AnalyseRoots(names: seq<Name>)
      requires Valid() && forall p :: p in names ==> p in distro.releasePackages
      modifies this`pkgs, this`repos, this`repoDeps, this`pkg2repo, this`orgaUrl
      ensures Valid()
      ensures forall p :: p in names && p in chosen ==> p in pkg2repo
      ensures Reachable(distro, chosen, names, MaxDepth) <= pkg2repo.Keys
      ensures pkg2repo.Keys - old(pkg2repo.Keys) <= Reachable(distro, chosen, names, MaxDepth)
      ensures old(pkg2repo) == map[] ==> pkg2repo.Keys == Reachable(distro, chosen, names, MaxDepth)
      ensures DepsRecorded(distro, repoDeps, old(pkg2repo.Keys), pkg2repo.Keys)
    {
      ghost var start := pkg2repo.Keys;
      DepsRecordedNone(distro, repoDeps, start, start);
      VisitRoots(names, start);
      ghost var keys := pkg2repo.Keys;
      RootsRecorded(distro, chosen, names, |names|, MaxDepth, start, keys);
      ReachedSets(distro, chosen, names, |names|, MaxDepth, start, keys);
    }

    /**
     * The loop itself: after it, the chosen packages each root reaches are
     * recorded, every package recorded since `start` is reached from some
     * root, and each has its dependencies' repositories recorded.
     */
    method VisitRoots(names: seq<Name>, ghost start: set<Name>)
      requires Valid() && forall p :: p in names ==> p in distro.releasePackages
      requires pkg2repo.Keys == start && DepsRecorded(distro, repoDeps, start, start)
      modifies this`pkgs, this`repos, this`repoDeps, this`pkg2repo, this`orgaUrl
      ensures Valid()
      ensures Reached(distro, chosen, names, |names|, MaxDepth, start, pkg2repo.Keys)
      ensures DepsRecorded(distro, repoDeps, start, pkg2repo.Keys)
    {
      var i := 0;
      while i < |names|
        invariant 0 <= i <= |names|
        invariant Valid()
        invariant Reached(distro, chosen, names, i, MaxDepth, start, pkg2repo.Keys)
        invariant DepsRecorded(distro, repoDeps, start, pkg2repo.Keys)
      {
        AnalyseRootStep(names, i, start);
        i := i + 1;
      }
    }

    /** Turn `i` of the loop over the roots: root `i` is analysed from depth 0, and nothing recorded is lost. */
    method AnalyseRootStep(names: seq<Name>, i: int, ghost start: set<Name>)
      requires Valid() && 0 <= i < |names| && names[i] in distro.releasePackages
      requires Reached(distro, chosen, names, i, MaxDepth, start, pkg2repo.Keys)
      requires DepsRecorded(distro, repoDeps, start, pkg2repo.Keys)
      modifies this`pkgs, this`repos, this`repoDeps, this`pkg2repo, this`orgaUrl
      ensures Valid()
      ensures Reached(distro, chosen, names, i + 1, MaxDepth, start, pkg2repo.Keys)
      ensures DepsRecorded(distro, repoDeps, start, pkg2repo.Keys)
    {
      ghost var s0 := St();
      ghost var keys0 := pkg2repo.Keys;
      assert Reached(distro, chosen, names, i, MaxDepth, start, keys0);
      AnalysePkg(names[i], 0, maxDepth);
      ghost var keys := pkg2repo.Keys;
      AtRoot(distro, chosen, names[i], maxDepth, MaxDepth, keys0, keys);
      ReachedStep(distro, chosen, names, i, MaxDepth, start, keys0, keys);
      DepsRecordedGrows(distro, s0, St(), start, keys0);
      DepsRecordedTrans(distro, repoDeps, start, keys0, keys);
    }

    /**
     * `analyse_pkg(pkg_name)` of the single-root script: analyse the root
     * from depth 0, clean out, and collect the repositories. The script
     * drops the summaries; here they stay in `collected`, which no caller
     * of this entry point reads.
     */
    method AnalyseRoot(pkgName: Name)
      requires Valid() && pkgName in distro.releasePackages
      modifies this`pkgs, this`repos, this`repoDeps, this`pkg2repo, this`orgaUrl, this`collected
      ensures Valid() && ReposKnown(distro, repos, pkgs)
      ensures pkgName in chosen ==> pkgName in pkg2repo
      ensures Reachable(distro, chosen, [pkgName], MaxDepth) <= pkg2repo.Keys
      ensures pkg2repo.Keys - old(pkg2repo.Keys) <= Reachable(distro, chosen, [pkgName], MaxDepth)
      ensures old(pkg2repo) == map[] ==> pkg2repo.Keys == Reachable(distro, chosen, [pkgName], MaxDepth)
      ensures forall r :: r in repoDeps ==> repoDeps[r] <= repos.Keys && r !in repoDeps[r]
      ensures DepsKept(distro, repos.Keys, repoDeps, old(pkg2repo.Keys), pkg2repo.Keys)
      ensures old(pkg2repo) == map[] ==> RepoDepsExact(distro, repos, repoDeps)
    {
      AnalyseFrom([pkgName]);
    }
  }
}
