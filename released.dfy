/**
 * The repository analysis of the second analyser version: for a released
 * repository, read the package entry and add package and repository edges
 * to the four dependency graphs ("requires" and "required by", for
 * packages and for repositories).
 */
module ReleasedRepos {
  import opened Wrappers
  import opened Graphs
  import opened XmlDict
  import opened PackageXml
  import opened Distro
  import opened Sets

  /** A package entry of `_analyse_released_repo`: name, status, dependencies, repository and package.xml fields. */
  datatype PkgEntry = PkgEntry(name: Name, status: RepoStatus, deps: seq<Name>, repository: Name, info: PackageInfo)

  /** What `_analyse_released_repo` hands back: the package map, `None`, or an exception. */
  datatype Outcome = Returned(pkgs: map<Name, PkgEntry>) | ReturnedNone | Raised

  /** Every edge reversed. */
  ghost function Flip(es: set<(Name, Name)>): set<(Name, Name)> {
    set e | e in es :: (e.1, e.0)
  }

  /** The package edges `p -> d` for the dependencies `ds`. */
  ghost function PkgPairs(p: Name, ds: seq<Name>): set<(Name, Name)> {
    set d | d in ds :: (p, d)
  }

  /** The repository edges package `p` contributes through `ds`: only where the repositories differ. */
  ghost function RepPairs(dist: Distribution, p: Name, ds: seq<Name>): set<(Name, Name)>
    requires p in dist.releasePackages
  {
    set d | d in ds && d in dist.releasePackages && dist.releasePackages[d] != dist.releasePackages[p] ::
      (dist.releasePackages[p], dist.releasePackages[d])
  }

  /** The repository pairs of a set of package edges. */
  ghost function RepoImage(dist: Distribution, es: set<(Name, Name)>): set<(Name, Name)> {
    set e | e in es && e.0 in dist.releasePackages && e.1 in dist.releasePackages ::
      (dist.releasePackages[e.0], dist.releasePackages[e.1])
  }

  /**
   * The analyser's invariant on its four graphs: the "required by" graphs
   * are the reverse of the "requires" graphs, package edges join release
   * packages of the selected distribution, and every repository edge joins
   * two different repositories and stems from a package edge between them.
   */
  ghost predicate EdgeInvariant(dist: Distribution, pr: Adjacency, pb: Adjacency, rr: Adjacency, rb: Adjacency) {
    && Edges(pb) == Flip(Edges(pr))
    && Edges(rb) == Flip(Edges(rr))
    && (forall e :: e in Edges(pr) ==> e.0 in dist.releasePackages && e.1 in dist.releasePackages)
    && (forall e :: e in Edges(rr) ==> e.0 != e.1)
    && Edges(rr) <= RepoImage(dist, Edges(pr))
  }

  lemma PairsSnoc(dist: Distribution, p: Name, ds: seq<Name>, d: Name)
    requires p in dist.releasePackages && d in dist.releasePackages
    ensures PkgPairs(p, ds + [d]) == PkgPairs(p, ds) + {(p, d)}
    ensures RepPairs(dist, p, ds + [d]) == RepPairs(dist, p, ds) +
      (if dist.releasePackages[d] != dist.releasePackages[p]
       then {(dist.releasePackages[p], dist.releasePackages[d])} else {})
    ensures Flip(PkgPairs(p, ds + [d])) == Flip(PkgPairs(p, ds)) + {(d, p)}
    ensures Flip(RepPairs(dist, p, ds + [d])) == Flip(RepPairs(dist, p, ds)) +
      (if dist.releasePackages[d] != dist.releasePackages[p]
       then {(dist.releasePackages[d], dist.releasePackages[p])} else {})
  {
    assert forall x :: x in ds + [d] <==> x in ds || x == d;
    FlipUnion(PkgPairs(p, ds), {(p, d)});
    assert Flip({(p, d)}) == {(d, p)};
    var r1, r2 := dist.releasePackages[p], dist.releasePackages[d];
    var rx: set<(Name, Name)> := if r1 != r2 then {(r1, r2)} else {};
    FlipUnion(RepPairs(dist, p, ds), rx);
    assert Flip(rx) == if r1 != r2 then {(r2, r1)} else {};
  }

  /** Adding the edges of package `p` towards dependencies `ds` keeps the invariant. */
  lemma AddingKeepsInvariant(dist: Distribution, p: Name, ds: seq<Name>,
                             pr0: Adjacency, pb0: Adjacency, rr0: Adjacency, rb0: Adjacency,
                             pr: Adjacency, pb: Adjacency, rr: Adjacency, rb: Adjacency)
    requires EdgeInvariant(dist, pr0, pb0, rr0, rb0)
    requires p in dist.releasePackages && forall d :: d in ds ==> d in dist.releasePackages
    requires Edges(pr) == Edges(pr0) + PkgPairs(p, ds)
    requires Edges(pb) == Edges(pb0) + Flip(PkgPairs(p, ds))
    requires Edges(rr) == Edges(rr0) + RepPairs(dist, p, ds)
    requires Edges(rb) == Edges(rb0) + Flip(RepPairs(dist, p, ds))
    ensures EdgeInvariant(dist, pr, pb, rr, rb)
  {
    FlipUnion(Edges(pr0), PkgPairs(p, ds));
    FlipUnion(Edges(rr0), RepPairs(dist, p, ds));
    forall e | e in RepPairs(dist, p, ds)
      ensures e in RepoImage(dist, Edges(pr))
    {
      var d :| d in ds && d in dist.releasePackages && dist.releasePackages[d] != dist.releasePackages[p] &&
        e == (dist.releasePackages[p], dist.releasePackages[d]);
      assert (p, d) in Edges(pr);
    }
    forall e | e in RepoImage(dist, Edges(pr0))
      ensures e in RepoImage(dist, Edges(pr))
    {
      var f :| f in Edges(pr0) && f.0 in dist.releasePackages && f.1 in dist.releasePackages &&
        e == (dist.releasePackages[f.0], dist.releasePackages[f.1]);
      assert f in Edges(pr);
    }
  }

  lemma FlipUnion(a: set<(Name, Name)>, b: set<(Name, Name)>)
    ensures Flip(a + b) == Flip(a) + Flip(b)
  {
  }

  class CacheAnalyser {
    const distro: Distribution
    const distribution: Distribution
    const pkgRequires: Graph
    const pkgRequiredBy: Graph
    const repRequires: Graph
    const repRequiredBy: Graph

    /** The snapshots satisfy what the analyser relies on. */
    ghost predicate SnapshotsConsistent() {
      Linked(distro) && Linked(distribution) && Listed(distribution) && Covers(distro, distribution)
    }

    ghost predicate GraphsValid()
      reads this, pkgRequires, pkgRequiredBy, repRequires, repRequiredBy
    {
      && pkgRequires != pkgRequiredBy && pkgRequires != repRequires && pkgRequires != repRequiredBy
      && pkgRequiredBy != repRequires && pkgRequiredBy != repRequiredBy && repRequires != repRequiredBy
      && pkgRequires.Valid() && pkgRequiredBy.Valid() && repRequires.Valid() && repRequiredBy.Valid()
    }

    ghost predicate Valid()
      reads this, pkgRequires, pkgRequiredBy, repRequires, repRequiredBy
    {
      && SnapshotsConsistent()
      && GraphsValid()
      && EdgeInvariant(distribution, pkgRequires.graph, pkgRequiredBy.graph, repRequires.graph, repRequiredBy.graph)
    }

    /** The part of `__init__` that sets up the four empty graphs. */
    constructor (distro: Distribution, distribution: Distribution)
      requires Linked(distro) && Linked(distribution) && Listed(distribution) && Covers(distro, distribution)
      ensures Valid()
      ensures this.distro == distro && this.distribution == distribution
      ensures fresh(pkgRequires) && fresh(pkgRequiredBy) && fresh(repRequires) && fresh(repRequiredBy)
      ensures pkgRequires.graph == Empty && pkgRequiredBy.graph == Empty
      ensures repRequires.graph == Empty && repRequiredBy.graph == Empty
    {
      this.distro := distro;
      this.distribution := distribution;
      pkgRequires := new Graph();
      repRequires := new Graph();
      pkgRequiredBy := new Graph();
      repRequiredBy := new Graph();
    }

    /** `deps.intersection(self._released_packages_set)` for release package `p`. */
    function Kept(p: Name): (r: seq<Name>)
      requires p in distro.deps
      ensures forall d :: d in r <==> d in distribution.releasePackages && d in distro.deps[p]
    {
      KeepReleased(distro.deps[p], distribution.releasePackages.Keys)
    }

    /**
     * The entry built for release package `p`; `None` where reading its
     * package.xml raises: no file, a document `dictify` fails on, or a field
     * the extraction cannot read.
     */
    function EntryOf(p: Name): Option<PkgEntry>
      requires SnapshotsConsistent() && p in distribution.releasePackages
    {
      if p in distro.packageXml && Dictifiable(distro.packageXml[p]) then
        match PackageDict(distro.packageXml[p])
        case None => None
        case Some(px) =>
          match Extract(px)
          case None => None
          case Some(info) => Some(PkgEntry(p, Released, distro.deps[p], distribution.releasePackages[p], info))
      else None
    }

    /**
     * `_analyse_released_repo(sg)`. The `return` sits inside the loop over
     * the repository's packages, so only the first package is analysed; a
     * repository without packages gives `None`. The graphs change only when
     * a package map is returned.
     */
    method AnalyseReleasedRepo(sg: Repository) returns (out: Outcome)
      requires Valid()
      requires sg.name in distribution.repositories && distribution.repositories[sg.name] == sg && sg.release.Some?
      modifies pkgRequires, pkgRequiredBy, repRequires, repRequiredBy
      ensures Valid()
      ensures sg.release.value.packageNames == [] <==> out == ReturnedNone
      ensures out.Raised? ==> EntryOf(sg.release.value.packageNames[0]).None?
      ensures out.Returned? ==>
        var p := sg.release.value.packageNames[0];
        EntryOf(p).Some? && out.pkgs == map[p := EntryOf(p).value]
      ensures !out.Returned? ==>
        pkgRequires.graph == old(pkgRequires.graph) && repRequires.graph == old(repRequires.graph)
      ensures out.Returned? ==>
        var p := sg.release.value.packageNames[0];
        && Edges(pkgRequires.graph) == Edges(old(pkgRequires.graph)) + PkgPairs(p, Kept(p))
        && Edges(repRequires.graph) == Edges(old(repRequires.graph)) + RepPairs(distribution, p, Kept(p))
    {
      var names := sg.release.value.packageNames;
      for k := 0 to |names|
        invariant k == 0
      {
        var p := names[k];
        var entry := EntryOf(p);
        if entry.None? {
          return Raised;
        }
        AddEdges(p);
        AddingKeepsInvariant(distribution, p, Kept(p),
          old(pkgRequires.graph), old(pkgRequiredBy.graph), old(repRequires.graph), old(repRequiredBy.graph),
          pkgRequires.graph, pkgRequiredBy.graph, repRequires.graph, repRequiredBy.graph);
        return Returned(map[p := entry.value]);
      }
      return ReturnedNone;
    }

    /** The edge loop of `_analyse_released_repo` for package `p`. */
    method AddEdges(p: Name)
      requires GraphsValid() && p in distribution.releasePackages && p in distro.deps
      modifies pkgRequires, pkgRequiredBy, repRequires, repRequiredBy
      ensures GraphsValid()
      ensures Edges(pkgRequires.graph) == Edges(old(pkgRequires.graph)) + PkgPairs(p, Kept(p))
      ensures Edges(pkgRequiredBy.graph) == Edges(old(pkgRequiredBy.graph)) + Flip(PkgPairs(p, Kept(p)))
      ensures Edges(repRequires.graph) == Edges(old(repRequires.graph)) + RepPairs(distribution, p, Kept(p))
      ensures Edges(repRequiredBy.graph) ==
        Edges(old(repRequiredBy.graph)) + Flip(RepPairs(distribution, p, Kept(p)))
    {
      var kept := Kept(p);
      ghost var p0, b0 := Edges(pkgRequires.graph), Edges(pkgRequiredBy.graph);
      ghost var r0, q0 := Edges(repRequires.graph), Edges(repRequiredBy.graph);
      for i := 0 to |kept|
        invariant GraphsValid()
        invariant Edges(pkgRequires.graph) == p0 + PkgPairs(p, kept[..i])
        invariant Edges(pkgRequiredBy.graph) == b0 + Flip(PkgPairs(p, kept[..i]))
        invariant Edges(repRequires.graph) == r0 + RepPairs(distribution, p, kept[..i])
        invariant Edges(repRequiredBy.graph) == q0 + Flip(RepPairs(distribution, p, kept[..i]))
      {
        var d := kept[i];
        assert kept[..i + 1] == kept[..i] + [d];
        PairsSnoc(distribution, p, kept[..i], d);
        ghost var pr, pb := Edges(pkgRequires.graph), Edges(pkgRequiredBy.graph);
        ghost var rr, rb := Edges(repRequires.graph), Edges(repRequiredBy.graph);
        AddPair(p, d);
        var r1, r2 := distribution.releasePackages[p], distribution.releasePackages[d];
        ghost var rx: set<(Name, Name)> := if r1 != r2 then {(r1, r2)} else {};
        ghost var qx: set<(Name, Name)> := if r1 != r2 then {(r2, r1)} else {};
        UnionStep(p0, pr, Edges(pkgRequires.graph), PkgPairs(p, kept[..i]), PkgPairs(p, kept[..i + 1]), {(p, d)});
        UnionStep(b0, pb, Edges(pkgRequiredBy.graph), Flip(PkgPairs(p, kept[..i])),
          Flip(PkgPairs(p, kept[..i + 1])), {(d, p)});
        UnionStep(r0, rr, Edges(repRequires.graph), RepPairs(distribution, p, kept[..i]),
          RepPairs(distribution, p, kept[..i + 1]), rx);
        UnionStep(q0, rb, Edges(repRequiredBy.graph), Flip(RepPairs(distribution, p, kept[..i])),
          Flip(RepPairs(distribution, p, kept[..i + 1])), qx);
      }
      assert kept[..|kept|] == kept;
    }

    /** One iteration of the edge loop: `p -> d` and its reverse, and the repository edge when the repositories differ. */
    method AddPair(p: Name, d: Name)
      requires GraphsValid()
      requires p in distribution.releasePackages && d in distribution.releasePackages
      modifies pkgRequires, pkgRequiredBy, repRequires, repRequiredBy
      ensures GraphsValid()
      ensures Edges(pkgRequires.graph) == Edges(old(pkgRequires.graph)) + {(p, d)}
      ensures Edges(pkgRequiredBy.graph) == Edges(old(pkgRequiredBy.graph)) + {(d, p)}
      ensures var r1, r2 := distribution.releasePackages[p], distribution.releasePackages[d];
        && Edges(repRequires.graph) == Edges(old(repRequires.graph)) + (if r1 != r2 then {(r1, r2)} else {})
        && Edges(repRequiredBy.graph) == Edges(old(repRequiredBy.graph)) + (if r1 != r2 then {(r2, r1)} else {})
    {
      AddedEdges(pkgRequires.graph, p, d);
      pkgRequires.AddEdge(p, d);
      AddedEdges(pkgRequiredBy.graph, d, p);
      pkgRequiredBy.AddEdge(d, p);
      var r1, r2 := distribution.releasePackages[p], distribution.releasePackages[d];
      if r1 != r2 {
        AddedEdges(repRequires.graph, r1, r2);
        repRequires.AddEdge(r1, r2);
        AddedEdges(repRequiredBy.graph, r2, r1);
        repRequiredBy.AddEdge(r2, r1);
      }
    }
  }
}
