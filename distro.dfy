/**
 * A snapshot of a ROS distribution as the analysers read it through
 * `rosdistro` / `rosinstall_generator`: repositories with their optional
 * source and release entries, the release packages and the repository each
 * belongs to, each package's direct dependencies
 * (`get_recursive_dependencies(..., limit_depth=1)`) and its parsed release
 * `package.xml`. Also the release-status classifications and the
 * organisation read from a source URL.
 */
module Distro {
  import opened Wrappers
  import opened Strings
  import opened XmlDict
  import opened Graphs

  type Name = string

  datatype SourceRepo = SourceRepo(name: Name, url: string, version: string, kind: string)
  datatype ReleaseRepo = ReleaseRepo(name: Name, url: string, version: string, packageNames: seq<Name>)
  datatype Repository = Repository(name: Name, source: Option<SourceRepo>, release: Option<ReleaseRepo>)

  datatype Distribution = Distribution(
    repositories: map<Name, Repository>,
    releasePackages: map<Name, Name>,     // release package -> its `repository_name`
    deps: map<Name, seq<Name>>,           // release package -> its direct dependencies
    packageXml: map<Name, Element>)       // release package -> its parsed `package.xml`

  /**
   * What a distribution file guarantees and the analysers rely on without
   * checking (a violation is a `KeyError` or `AttributeError`): names match
   * their keys, every release package's repository exists and is released,
   * and dependencies are release packages.
   */
  ghost predicate Linked(d: Distribution) {
    && (forall r :: r in d.repositories ==> d.repositories[r].name == r)
    && (forall r :: r in d.repositories && d.repositories[r].source.Some? ==> d.repositories[r].source.value.name == r)
    && (forall p :: p in d.releasePackages ==>
          d.releasePackages[p] in d.repositories && d.repositories[d.releasePackages[p]].release.Some?)
    && (forall p :: p in d.releasePackages ==> p in d.deps)
    && (forall p, q :: p in d.deps && q in d.deps[p] ==> q in d.releasePackages)
  }

  /** The package names a released repository lists are release packages of that repository. */
  ghost predicate Listed(d: Distribution) {
    forall r, p ::
      (r in d.repositories && d.repositories[r].release.Some? && p in d.repositories[r].release.value.packageNames)
      ==> p in d.releasePackages && d.releasePackages[p] == r
  }

  /**
   * Every source URL has at least four '/'-separated fields, so that
   * `url.split('/')[3]` does not raise an `IndexError`.
   */
  ghost predicate SourceUrls(d: Distribution) {
    forall r :: r in d.repositories && d.repositories[r].source.Some? ==> |Split(d.repositories[r].source.value.url, '/')| >= 4
  }

  /**
   * The distribution file selected by its tags is one of the files merged
   * into the whole distribution: its release packages are known there.
   */
  predicate Covers(distro: Distribution, distribution: Distribution) {
    distribution.releasePackages.Keys <= distro.releasePackages.Keys
  }

  /** `deps.intersection(released)`, in the order of `deps`. */
  function KeepReleased(deps: seq<Name>, released: set<Name>): (r: seq<Name>)
    ensures forall q :: q in r <==> q in deps && q in released
    ensures NoDup(deps) ==> NoDup(r)
  {
    if deps == [] then []
    else if deps[0] in released then [deps[0]] + KeepReleased(deps[1..], released)
    else KeepReleased(deps[1..], released)
  }

  /** `url.split('/')[3]`: the organisation of a `https://host/orga/repo` URL. */
  function Orga(url: string): string
    requires |Split(url, '/')| >= 4
  {
    Split(url, '/')[3]
  }

  /** `'/'.join(url.split('/')[:4])`: the organisation's URL. */
  function OrgaUrl(url: string): string
    requires |Split(url, '/')| >= 4
  {
    Join(Split(url, '/')[..4], "/")
  }

  /**
   * The organisation URL is a prefix of the URL ending in the organisation,
   * followed by nothing or by a '/'.
   */
  lemma OrgaUrlIsPrefix(url: string)
    requires |Split(url, '/')| >= 4
    ensures OrgaUrl(url) <= url
    ensures |OrgaUrl(url)| == |url| || url[|OrgaUrl(url)|] == '/'
    ensures OrgaUrl(url) == Join(Split(url, '/')[..3], "/") + "/" + Orga(url)
  {
    var parts := Split(url, '/');
    JoinSplit(url, '/');
    JoinPrefix(parts[..4], "/", 3);
    assert parts[..4][..3] == parts[..3];
    assert parts[..4][3..] == [parts[3]];
    if |parts| > 4 {
      JoinPrefix(parts, "/", 4);
    } else {
      assert parts[..4] == parts;
    }
  }

  /** A repository's status after `_analyse_repos`: 'released', 'source' or the template's 'unknown'. */
  datatype RepoStatus = Released | SourceOnly | Unknown

  /**
   * The status `_analyse_repos` leaves for repository `r`. A released
   * repository whose analysis raised keeps the template value: the
   * assignment of the status comes after the analysis.
   */
  function AnalysedStatus(r: Repository, releasedAnalysisRaised: bool): RepoStatus {
    if r.release.Some? then (if releasedAnalysisRaised then Unknown else Released)
    else if r.source.Some? then SourceOnly
    else Unknown
  }

  /** The values of `_get_release_status`: 'release' or 'source' (or `None`). */
  datatype ReleaseKind = Release | Source

  /** `_get_release_status(repo_name)`. */
  function ReleaseStatus(d: Distribution, repoName: Name): Option<ReleaseKind> {
    if repoName in d.repositories then
      var r := d.repositories[repoName];
      if r.release.Some? then Some(Release)
      else if r.source.Some? then Some(Source)
      else None
    else None
  }

  /**
   * The two classifications agree on every known repository whose analysis
   * completed, and an unknown repository has no release status.
   */
  lemma StatusesAgree(d: Distribution, name: Name)
    ensures name !in d.repositories ==> ReleaseStatus(d, name) == None
    ensures name in d.repositories ==>
      var s := AnalysedStatus(d.repositories[name], false);
      && (ReleaseStatus(d, name) == Some(Release) <==> s == Released)
      && (ReleaseStatus(d, name) == Some(Source) <==> s == SourceOnly)
      && (ReleaseStatus(d, name) == None <==> s == Unknown)
  {
  }
}
