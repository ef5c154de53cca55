/** The recursive gathering of dependencies for printing build scripts. */
module GatherDependencies {
  import opened Graphs
  import opened DependencyGraph
  import opened Names

  /** The flags of a dependency that the gathering looks at. */
  datatype Flag = HeaderOnly | IncludeDirectoriesOnly | ExecutableProject | LocalProject | Direct

  /** A dependency: the package, and the flags it carries where it is listed. */
  datatype Dep = Dep(pkg: Package, flags: set<Flag>)

  /** Dependencies by name. */
  type Packages = map<Name, Dep>

  /** The package store: the dependencies of each package, and the packages whose configuration
      lets executables be copied; and the setting copy_all_libraries_to_output. */
  datatype Store = Store(dependencies: map<Package, Packages>, copyToOutputDir: set<Package>, copyAllLibraries: bool)
  {
    /** A package that is not stored has no dependencies. */
    function Of(p: Package): Packages {
      if p in dependencies then dependencies[p] else map[]
    }

    predicate AnyDep(d: Dep) { true }

    predicate IsBuilt(d: Dep) {
      HeaderOnly !in d.flags && IncludeDirectoriesOnly !in d.flags
    }

    predicate IsLinked(d: Dep) {
      IsBuilt(d) && ExecutableProject !in d.flags
    }

    predicate IsCopied(d: Dep) {
      && IsBuilt(d)
      && (ExecutableProject in d.flags ==>
            && d.pkg in copyToOutputDir && Direct in d.flags
            && (copyAllLibraries || LocalProject in d.flags))
    }
  }

  /** Which dependencies are followed, by their flags: what is only headers or include directories
      is neither built nor copied; libraries are linked and copied; an executable is never linked,
      and copied if its package says so, it is a direct dependency, and either all libraries are to
      be copied or it is local. */
  lemma WhatIsFollowed(rd: Store, d: Dep)
    ensures HeaderOnly in d.flags || IncludeDirectoriesOnly in d.flags ==>
              !rd.IsBuilt(d) && !rd.IsLinked(d) && !rd.IsCopied(d)
    ensures HeaderOnly !in d.flags && IncludeDirectoriesOnly !in d.flags ==> rd.IsBuilt(d)
    ensures ExecutableProject !in d.flags ==> (rd.IsLinked(d) <==> rd.IsBuilt(d)) && (rd.IsCopied(d) <==> rd.IsBuilt(d))
    ensures ExecutableProject in d.flags ==> !rd.IsLinked(d)
    ensures ExecutableProject in d.flags && (d.pkg !in rd.copyToOutputDir || Direct !in d.flags) ==> !rd.IsCopied(d)
    ensures ExecutableProject in d.flags && !rd.copyAllLibraries && LocalProject !in d.flags ==> !rd.IsCopied(d)
    ensures rd.IsBuilt(d) && d.pkg in rd.copyToOutputDir && {Direct, LocalProject} <= d.flags ==> rd.IsCopied(d)
    ensures rd.IsBuilt(d) && d.pkg in rd.copyToOutputDir && Direct in d.flags && rd.copyAllLibraries ==> rd.IsCopied(d)
    ensures rd.AnyDep(d)
  {
  }

  // ----- the graph of listings -----

  /** A dependency as it is listed: under a name. The same name may be listed with other packages
      and other flags elsewhere. */
  datatype Listing = Listing(name: Name, dep: Dep)

  ghost function Admitted(dd: Packages, admit: Dep -> bool): set<Name> {
    set n | n in dd && admit(dd[n])
  }

  ghost function Listings(dd: Packages, admit: Dep -> bool): set<Listing> {
    set n | n in dd && admit(dd[n]) :: Listing(n, dd[n])
  }

  /** The admitted dependencies of the listed package. */
  ghost function Behind(rd: Store, admit: Dep -> bool): Listing -> set<Listing> {
    (x: Listing) => Listings(rd.Of(x.dep.pkg), admit)
  }

  /** The dependency is listed under the name, in dd or by a stored package. */
  ghost predicate IsListed(rd: Store, dd: Packages, n: Name, d: Dep) {
    (n in dd && dd[n] == d) || exists p :: p in rd.dependencies && n in rd.dependencies[p] && rd.dependencies[p][n] == d
  }

  /** From m to o: nothing was lost or changed, and what was added is reached from the admitted
      dependencies of dd along admitted dependencies, and so are all of these. */
  ghost predicate IsGathering(rd: Store, admit: Dep -> bool, dd: Packages, m: Packages, o: Packages) {
    && (forall n | n in m :: n in o && o[n] == m[n])
    && (forall n | n in o && n !in m :: IsGathered(rd, admit, dd, o, n))
  }

  /** The admitted dependencies of the packages taken in are taken in, by name. */
  ghost predicate IsClosedByName(rd: Store, admit: Dep -> bool, o: Packages) {
    forall n, k | n in o && o[n].pkg in rd.dependencies && k in rd.dependencies[o[n].pkg]
                  && admit(rd.dependencies[o[n].pkg][k]) :: k in o
  }

  /** The listing that was taken in is admitted and reached, and for each admitted dependency of
      its package some listing of that name was taken in. */
  ghost predicate IsGathered(rd: Store, admit: Dep -> bool, dd: Packages, o: Packages, n: Name) {
    && n in o && admit(o[n]) && IsListed(rd, dd, n, o[n])
    && ReachedFrom(Behind(rd, admit), Listings(dd, admit), Listing(n, o[n]))
    && Admitted(rd.Of(o[n].pkg), admit) <= o.Keys
  }

  /** Gathered into nothing, in whatever order maps are iterated, from whatever store. */
  ghost predicate IsAllGathered(rd: Store, admit: Dep -> bool, dd: Packages, o: Packages) {
    Admitted(dd, admit) <= o.Keys && forall n | n in o :: IsGathered(rd, admit, dd, o, n)
  }

  // ----- one package per name -----

  /** The package that each name stands for, in this list and wherever a stored package lists it. */
  ghost predicate MeansSame(names: map<Name, Package>, dd: Packages) {
    forall n | n in dd :: n in names && names[n] == dd[n].pkg
  }

  ghost predicate IsConsistent(rd: Store, names: map<Name, Package>, dd: Packages) {
    MeansSame(names, dd) && forall p | p in rd.dependencies :: MeansSame(names, rd.dependencies[p])
  }

  /** A name is that of an executable wherever it is listed, or nowhere. */
  ghost predicate AgreesOnExecutables(rd: Store, executables: set<Name>, dd: Packages) {
    forall n, d | IsListed(rd, dd, n, d) :: ExecutableProject in d.flags <==> n in executables
  }

  ghost function Via(rd: Store, names: map<Name, Package>, admit: Dep -> bool): Name -> set<Name> {
    n => if n in names then Admitted(rd.Of(names[n]), admit) else {}
  }

  lemma StepByName(rd: Store, names: map<Name, Package>, admit: Dep -> bool, dd: Packages, x: Listing, z: Listing)
    requires IsConsistent(rd, names, dd) && x.name in names && names[x.name] == x.dep.pkg
    requires z in Behind(rd, admit)(x)
    ensures z.name in Via(rd, names, admit)(x.name) && z.name in names && names[z.name] == z.dep.pkg
  {
  }

  lemma {:induction false} StepsByName(rd: Store, names: map<Name, Package>, admit: Dep -> bool, dd: Packages,
                                       x: Listing, y: Listing, k: nat)
    requires IsConsistent(rd, names, dd) && x.name in names && names[x.name] == x.dep.pkg
    requires InSteps(Behind(rd, admit), x, y, k)
    ensures InSteps(Via(rd, names, admit), x.name, y.name, k)
    decreases k
  {
    hide IsConsistent, Behind, Via;
    if k > 0 {
      var z :| z in Behind(rd, admit)(x) && InSteps(Behind(rd, admit), z, y, k - 1);
      StepByName(rd, names, admit, dd, x, z);
      StepsByName(rd, names, admit, dd, z, y, k - 1);
    }
  }

  lemma ReachedByName(rd: Store, names: map<Name, Package>, admit: Dep -> bool, dd: Packages, x: Listing)
    requires IsConsistent(rd, names, dd) && ReachedFrom(Behind(rd, admit), Listings(dd, admit), x)
    ensures ReachedFrom(Via(rd, names, admit), Admitted(dd, admit), x.name)
  {
    var a :| a in Listings(dd, admit) && Reaches(Behind(rd, admit), a, x);
    var k: nat :| InSteps(Behind(rd, admit), a, x, k);
    StepsByName(rd, names, admit, dd, a, x, k);
    assert Reaches(Via(rd, names, admit), a.name, x.name);
  }

  lemma ListedAsNamed(rd: Store, names: map<Name, Package>, dd: Packages, n: Name, d: Dep)
    requires IsConsistent(rd, names, dd) && IsListed(rd, dd, n, d)
    ensures n in names && names[n] == d.pkg
  {
  }

  /** With one package per name, what is gathered are exactly the names that are reached. */
  lemma GatheredByName(rd: Store, names: map<Name, Package>, admit: Dep -> bool, dd: Packages, o: Packages)
    requires IsConsistent(rd, names, dd) && IsAllGathered(rd, admit, dd, o)
    ensures forall n :: n in o <==> ReachedFrom(Via(rd, names, admit), Admitted(dd, admit), n)
    ensures MeansSame(names, o)
  {
    hide ReachedFrom, IsConsistent, IsListed;
    forall n | n in o
      ensures ReachedFrom(Via(rd, names, admit), Admitted(dd, admit), n) && Via(rd, names, admit)(n) <= o.Keys
      ensures n in names && names[n] == o[n].pkg
    {
      assert IsGathered(rd, admit, dd, o, n);
      ListedAsNamed(rd, names, dd, n, o[n]);
      ReachedByName(rd, names, admit, dd, Listing(n, o[n]));
    }
    ClosedUnder(Via(rd, names, admit), o.Keys);
    ClosedAndReached(Via(rd, names, admit), Admitted(dd, admit), o.Keys);
  }

  lemma ClosedUnder(succ: Name -> set<Name>, s: set<Name>)
    requires forall n | n in s :: succ(n) <= s
    ensures IsClosed(succ, s)
  {
  }

  // ----- steps of the proofs -----

  ghost function AllNames(rd: Store): set<Name> {
    set p, n | p in rd.dependencies && n in rd.dependencies[p] :: n
  }

  /** The names that may still be taken in: the bound of the recursion, whatever the store. */
  ghost function Left(rd: Store, dd: Packages, o: Packages): set<Name> {
    AllNames(rd) + dd.Keys - o.Keys
  }

  lemma FewerLeft(rd: Store, dd: Packages, start: Packages, m: Packages, o: Packages, n: Name, p: Package)
    requires n in dd && n !in m && n in o && start.Keys <= m.Keys <= o.Keys
    ensures |Left(rd, rd.Of(p), o)| < |Left(rd, dd, start)|
  {
    var a, b := Left(rd, rd.Of(p), o), Left(rd, dd, start);
    assert b == a + (b - a) && n in b - a;
  }

  lemma NotMoreLeft(rd: Store, dd: Packages, m: Packages, o: Packages)
    requires m.Keys <= o.Keys
    ensures |Left(rd, dd, o)| <= |Left(rd, dd, m)|
  {
    var a, b := Left(rd, dd, o), Left(rd, dd, m);
    assert b == a + (b - a);
  }

  /** A dependency was entered into m, and then its package's dependencies were gathered. */
  lemma GatheredBehind(rd: Store, admit: Dep -> bool, dd: Packages, n: Name, m: Packages, o: Packages)
    requires n in dd && admit(dd[n]) && n !in m
    requires IsGathering(rd, admit, rd.Of(dd[n].pkg), m[n := dd[n]], o)
    requires Admitted(rd.Of(dd[n].pkg), admit) <= o.Keys
    ensures IsGathering(rd, admit, dd, m, o) && n in o
  {
    hide IsListed;
    var x := Listing(n, dd[n]);
    FirstListing(rd, admit, dd, n);
    forall k | k in o && k !in m
      ensures IsGathered(rd, admit, dd, o, k)
    {
      if k != n {
        assert IsGathered(rd, admit, rd.Of(dd[n].pkg), o, k);
        BehindListing(rd, admit, dd, n, Listing(k, o[k]));
        ListedBehind(rd, dd, dd[n].pkg, k, o[k]);
      }
    }
  }

  lemma FirstListing(rd: Store, admit: Dep -> bool, dd: Packages, n: Name)
    requires n in dd && admit(dd[n])
    ensures IsListed(rd, dd, n, dd[n])
    ensures ReachedFrom(Behind(rd, admit), Listings(dd, admit), Listing(n, dd[n]))
  {
    ReachesSelf(Behind(rd, admit), Listing(n, dd[n]));
  }

  lemma BehindListing(rd: Store, admit: Dep -> bool, dd: Packages, n: Name, y: Listing)
    requires n in dd && admit(dd[n])
    requires ReachedFrom(Behind(rd, admit), Listings(rd.Of(dd[n].pkg), admit), y)
    ensures ReachedFrom(Behind(rd, admit), Listings(dd, admit), y)
  {
    var a :| a in Listings(rd.Of(dd[n].pkg), admit) && Reaches(Behind(rd, admit), a, y);
    ReachesAfterEdge(Behind(rd, admit), Listing(n, dd[n]), a, y);
  }

  lemma ListedBehind(rd: Store, dd: Packages, p: Package, n: Name, d: Dep)
    requires IsListed(rd, rd.Of(p), n, d)
    ensures IsListed(rd, dd, n, d)
  {
  }

  lemma GatheredMore(rd: Store, admit: Dep -> bool, dd: Packages, m: Packages, n: Packages, o: Packages)
    requires IsGathering(rd, admit, dd, m, n) && IsGathering(rd, admit, dd, n, o)
    ensures IsGathering(rd, admit, dd, m, o)
  {
    hide ReachedFrom, IsListed;
    forall k | k in o && k !in m
      ensures IsGathered(rd, admit, dd, o, k)
    {
      if k in n {
        assert IsGathered(rd, admit, dd, n, k);
      }
    }
  }

  // ----- gathering what must be built -----

  /** Executables among the dependencies themselves. */
  function DirectExecutables(rd: Store, dd: Packages): set<Name> {
    set n | n in dd && rd.IsBuilt(dd[n]) && ExecutableProject in dd[n].flags
  }

  /** Like IsGathering along linked dependencies, but executables may be added at depth 0, and
      without recursion nothing behind the dependencies is. */
  ghost predicate IsBuildGathering(rd: Store, recursive: bool, depth: nat, dd: Packages, m: Packages, o: Packages) {
    && (forall n | n in m :: n in o && o[n] == m[n])
    && (forall n | n in o && n !in m :: IsBuildGathered(rd, recursive, depth, dd, o, n))
  }

  ghost predicate IsBuildGathered(rd: Store, recursive: bool, depth: nat, dd: Packages, o: Packages, n: Name) {
    n in o && rd.IsBuilt(o[n]) &&
    if ExecutableProject in o[n].flags then depth == 0 && n in dd && dd[n] == o[n]
    else if recursive then IsGathered(rd, rd.IsLinked, dd, o, n)
    else n in dd && dd[n] == o[n]
  }

  ghost predicate HasBuildDeps(rd: Store, depth: nat, dd: Packages, o: Packages) {
    Admitted(dd, rd.IsLinked) <= o.Keys && (depth == 0 ==> DirectExecutables(rd, dd) <= o.Keys)
  }

  /** Gathered into nothing, from whatever store: the executables among the dependencies and what
      links lead to, each with the links of its package, or no more than dd without recursion. */
  ghost predicate IsAllBuildGathered(rd: Store, recursive: bool, dd: Packages, o: Packages) {
    HasBuildDeps(rd, 0, dd, o) && forall n | n in o :: IsBuildGathered(rd, recursive, 0, dd, o, n)
  }

  /** The linked dependencies of the libraries taken in are taken in, by name. */
  ghost predicate LibrariesAreClosed(rd: Store, o: Packages) {
    forall n, k | n in o && ExecutableProject !in o[n].flags && o[n].pkg in rd.dependencies
                  && k in rd.dependencies[o[n].pkg] && rd.IsLinked(rd.dependencies[o[n].pkg][k]) :: k in o
  }

  ghost predicate IsBuildReached(rd: Store, names: map<Name, Package>, recursive: bool, dd: Packages, n: Name) {
    if recursive then ReachedFrom(Via(rd, names, rd.IsLinked), Admitted(dd, rd.IsLinked), n)
    else n in Admitted(dd, rd.IsLinked)
  }

  /** Where names mean one thing: the executables among the dependencies, and what is reached
      through linked dependencies, or just these when there is no recursion. */
  lemma BuildGatheredByName(rd: Store, names: map<Name, Package>, executables: set<Name>, recursive: bool,
                            dd: Packages, o: Packages)
    requires IsConsistent(rd, names, dd) && AgreesOnExecutables(rd, executables, dd)
    requires IsAllBuildGathered(rd, recursive, dd, o)
    ensures forall n :: n in o <==> n in DirectExecutables(rd, dd) || IsBuildReached(rd, names, recursive, dd, n)
    ensures MeansSame(names, o)
  {
    hide ReachedFrom, IsClosed, IsConsistent, IsListed;
    var linked := set n | n in o && n !in executables;
    forall n | n in o
      ensures n in executables <==> ExecutableProject in o[n].flags
      ensures n in names && names[n] == o[n].pkg
    {
      BuildIsListed(rd, recursive, dd, o, n);
      ListedAsNamed(rd, names, dd, n, o[n]);
    }
    forall n | n in dd
      ensures n in executables <==> ExecutableProject in dd[n].flags
    {
      ListedHere(rd, dd, n);
    }
    if recursive {
      var via, roots := Via(rd, names, rd.IsLinked), Admitted(dd, rd.IsLinked);
      forall n | n in linked
        ensures ReachedFrom(via, roots, n) && via(n) <= linked
      {
        assert IsBuildGathered(rd, recursive, 0, dd, o, n);
        ListedAsNamed(rd, names, dd, n, o[n]);
        ReachedByName(rd, names, rd.IsLinked, dd, Listing(n, o[n]));
        LinksAreNoExecutables(rd, executables, dd, o[n].pkg);
      }
      ClosedUnder(via, linked);
      ClosedAndReached(via, roots, linked);
    }
  }

  lemma BuildIsListed(rd: Store, recursive: bool, dd: Packages, o: Packages, n: Name)
    requires n in o && IsBuildGathered(rd, recursive, 0, dd, o, n)
    ensures IsListed(rd, dd, n, o[n])
  {
    hide ReachedFrom;
  }

  lemma ListedHere(rd: Store, dd: Packages, n: Name)
    requires n in dd
    ensures IsListed(rd, dd, n, dd[n])
  {
  }

  lemma LinksAreNoExecutables(rd: Store, executables: set<Name>, dd: Packages, p: Package)
    requires AgreesOnExecutables(rd, executables, dd)
    ensures forall n | n in Admitted(rd.Of(p), rd.IsLinked) :: n !in executables
  {
    forall n | n in Admitted(rd.Of(p), rd.IsLinked)
      ensures n !in executables
    {
      assert IsListed(rd, dd, n, rd.Of(p)[n]);
    }
  }

  lemma BuildGatheredBehind(rd: Store, depth: nat, dd: Packages, n: Name, m: Packages, o: Packages)
    requires n in dd && n !in m && rd.IsLinked(dd[n])
    requires IsBuildGathering(rd, true, depth + 1, rd.Of(dd[n].pkg), m[n := dd[n]], o)
    requires HasBuildDeps(rd, depth + 1, rd.Of(dd[n].pkg), o)
    ensures IsBuildGathering(rd, true, depth, dd, m, o) && n in o
  {
    hide IsListed;
    FirstListing(rd, rd.IsLinked, dd, n);
    forall k | k in o && k !in m
      ensures IsBuildGathered(rd, true, depth, dd, o, k)
    {
      if k != n {
        assert IsBuildGathered(rd, true, depth + 1, rd.Of(dd[n].pkg), o, k);
        BehindListing(rd, rd.IsLinked, dd, n, Listing(k, o[k]));
        ListedBehind(rd, dd, dd[n].pkg, k, o[k]);
      }
    }
  }

  lemma BuildGatheredMore(rd: Store, recursive: bool, depth: nat, dd: Packages, m: Packages, n: Packages, o: Packages)
    requires IsBuildGathering(rd, recursive, depth, dd, m, n) && IsBuildGathering(rd, recursive, depth, dd, n, o)
    ensures IsBuildGathering(rd, recursive, depth, dd, m, o) && m.Keys <= n.Keys <= o.Keys
  {
    hide ReachedFrom, IsListed;
    forall k | k in o && k !in m
      ensures IsBuildGathered(rd, recursive, depth, dd, o, k)
    {
      if k in n {
        assert IsBuildGathered(rd, recursive, depth, dd, n, k);
      }
    }
  }

  /** Entering a dependency without looking behind it. */
  lemma BuildEntered(rd: Store, recursive: bool, depth: nat, dd: Packages, n: Name, m: Packages)
    requires n in dd && n !in m && rd.IsBuilt(dd[n])
    requires if ExecutableProject in dd[n].flags then depth == 0 else !recursive
    ensures IsBuildGathering(rd, recursive, depth, dd, m, m[n := dd[n]])
  {
  }

  // ----- the gathering -----

  class Gatherer {
    const rd: Store
    var out: Packages

    constructor (rd: Store)
      ensures this.rd == rd && out == map[]
    {
      this.rd := rd;
      out := map[];
    }

    method GatherAllDeps(dd: Packages)
      modifies this`out
      ensures IsGathering(rd, rd.AnyDep, dd, old(out), out) && Admitted(dd, rd.AnyDep) <= out.Keys
      decreases |Left(rd, dd, out)|
    {
      hide IsGathering, Left;
      var todo := dd.Keys;
      NothingGathered(rd, rd.AnyDep, dd, out);
      while todo != {}
        invariant todo <= dd.Keys && forall n | n in dd && n !in todo :: n in out
        invariant IsGathering(rd, rd.AnyDep, dd, old(out), out) && old(out).Keys <= out.Keys
        decreases |todo|
      {
        var n :| n in todo;
        todo := todo - {n};
        ghost var before := out;
        if n !in out {
          out := out[n := dd[n]];
          FewerLeft(rd, dd, old(out), before, out, n, dd[n].pkg);
          GatherAllDeps(rd.Of(dd[n].pkg));
          GatheredBehind(rd, rd.AnyDep, dd, n, before, out);
          GatheredMore(rd, rd.AnyDep, dd, old(out), before, out);
          GatheringKeeps(rd, rd.AnyDep, dd, before, out);
        }
      }
    }

    method GatherCopyDeps(dd: Packages)
      modifies this`out
      ensures IsGathering(rd, rd.IsCopied, dd, old(out), out) && Admitted(dd, rd.IsCopied) <= out.Keys
      decreases |Left(rd, dd, out)|
    {
      hide IsGathering, Left;
      var todo := dd.Keys;
      NothingGathered(rd, rd.IsCopied, dd, out);
      while todo != {}
        invariant todo <= dd.Keys && forall n | n in dd && n !in todo && rd.IsCopied(dd[n]) :: n in out
        invariant IsGathering(rd, rd.IsCopied, dd, old(out), out) && old(out).Keys <= out.Keys
        decreases |todo|
      {
        var n :| n in todo;
        todo := todo - {n};
        var d := dd[n];
        if HeaderOnly in d.flags || IncludeDirectoriesOnly in d.flags {
          continue;
        }
        if ExecutableProject in d.flags {
          if d.pkg !in rd.copyToOutputDir {
            continue;
          }
          if !rd.copyAllLibraries {
            if LocalProject !in d.flags {
              continue;
            }
            if LocalProject in d.flags && Direct !in d.flags {
              continue;
            }
          } else {
            if Direct !in d.flags {
              continue;
            }
          }
        }
        ghost var before := out;
        if n !in out {
          out := out[n := d];
          FewerLeft(rd, dd, old(out), before, out, n, d.pkg);
          GatherCopyDeps(rd.Of(d.pkg));
          GatheredBehind(rd, rd.IsCopied, dd, n, before, out);
          GatheredMore(rd, rd.IsCopied, dd, old(out), before, out);
          GatheringKeeps(rd, rd.IsCopied, dd, before, out);
        }
      }
    }

    method GatherBuildDeps(dd: Packages, recursive: bool, depth: nat)
      modifies this`out
      ensures IsBuildGathering(rd, recursive, depth, dd, old(out), out) && HasBuildDeps(rd, depth, dd, out)
      decreases |Left(rd, dd, out)|, 1
    {
      hide *;
      var todo := dd.Keys;
      NothingBuildGathered(rd, recursive, depth, dd, out);
      while todo != {}
        invariant todo <= dd.Keys && IsTakenIn(rd, depth, dd, todo, out)
        invariant IsBuildGathering(rd, recursive, depth, dd, old(out), out)
        decreases |todo|
      {
        var n :| n in todo;
        assert todo - {n} + {n} == todo;
        todo := todo - {n};
        ghost var before := out;
        BuildGatheringKeeps(rd, recursive, depth, dd, old(out), out);
        NotMoreLeft(rd, dd, old(out), before);
        GatherBuildDep(dd, n, recursive, depth);
        BuildGatheredMore(rd, recursive, depth, dd, old(out), before, out);
        TakeIn(rd, depth, dd, todo, n, before, out);
      }
      AllTakenIn(rd, depth, dd, out);
    }

    /** The body of the loop, for the dependency listed as n. */
    method GatherBuildDep(dd: Packages, n: Name, recursive: bool, depth: nat)
      requires n in dd
      modifies this`out
      ensures IsBuildGathering(rd, recursive, depth, dd, old(out), out)
      ensures IsWanted(rd, depth, dd[n]) ==> n in out
      decreases |Left(rd, dd, out)|, 0
    {
      hide IsBuildGathering, HasBuildDeps, Left;
      var d := dd[n];
      NothingBuildGathered(rd, recursive, depth, dd, out);
      if HeaderOnly in d.flags || IncludeDirectoriesOnly in d.flags {
        return;
      }
      if ExecutableProject in d.flags {
        if depth == 0 && n !in out {
          out := out[n := d];
          BuildEntered(rd, recursive, depth, dd, n, old(out));
        }
        return;
      }
      if n !in out {
        out := out[n := d];
        if recursive {
          FewerLeft(rd, dd, old(out), old(out), out, n, d.pkg);
          GatherBuildDeps(rd.Of(d.pkg), recursive, depth + 1);
          BuildGatheredBehind(rd, depth, dd, n, old(out), out);
        } else {
          BuildEntered(rd, recursive, depth, dd, n, old(out));
        }
      }
    }
  }

  predicate IsWanted(rd: Store, depth: nat, d: Dep) {
    rd.IsBuilt(d) && (ExecutableProject in d.flags ==> depth == 0)
  }

  predicate IsTakenIn(rd: Store, depth: nat, dd: Packages, todo: set<Name>, o: Packages) {
    forall n | n in dd && n !in todo && IsWanted(rd, depth, dd[n]) :: n in o
  }

  lemma TakeIn(rd: Store, depth: nat, dd: Packages, todo: set<Name>, n: Name, m: Packages, o: Packages)
    requires IsTakenIn(rd, depth, dd, todo + {n}, m) && n in dd && m.Keys <= o.Keys
    requires IsWanted(rd, depth, dd[n]) ==> n in o
    ensures IsTakenIn(rd, depth, dd, todo, o)
  {
  }

  lemma AllTakenIn(rd: Store, depth: nat, dd: Packages, o: Packages)
    requires IsTakenIn(rd, depth, dd, {}, o)
    ensures HasBuildDeps(rd, depth, dd, o)
  {
  }

  lemma BuildGatheringKeeps(rd: Store, recursive: bool, depth: nat, dd: Packages,
                            m: Packages, o: Packages)
    requires IsBuildGathering(rd, recursive, depth, dd, m, o)
    ensures m.Keys <= o.Keys
  {
  }

  lemma NothingBuildGathered(rd: Store, recursive: bool, depth: nat, dd: Packages,
                             m: Packages)
    ensures IsBuildGathering(rd, recursive, depth, dd, m, m) && IsTakenIn(rd, depth, dd, dd.Keys, m)
  {
  }

  lemma NothingGathered(rd: Store, admit: Dep -> bool, dd: Packages, m: Packages)
    ensures IsGathering(rd, admit, dd, m, m)
  {
  }

  lemma GatheringKeeps(rd: Store, admit: Dep -> bool, dd: Packages, m: Packages, o: Packages)
    requires IsGathering(rd, admit, dd, m, o)
    ensures m.Keys <= o.Keys
  {
  }

  // ----- the uses: gathering into an empty map -----

  lemma GatheredFromNothing(rd: Store, admit: Dep -> bool, dd: Packages, o: Packages)
    requires IsGathering(rd, admit, dd, map[], o) && Admitted(dd, admit) <= o.Keys
    ensures IsAllGathered(rd, admit, dd, o) && IsClosedByName(rd, admit, o)
  {
    hide ReachedFrom, IsListed;
    forall n, k | n in o && o[n].pkg in rd.dependencies && k in rd.dependencies[o[n].pkg]
                  && admit(rd.dependencies[o[n].pkg][k])
      ensures k in o
    {
      assert IsGathered(rd, admit, dd, o, n) && k in Admitted(rd.Of(o[n].pkg), admit);
    }
  }

  lemma BuildGatheredFromNothing(rd: Store, recursive: bool, dd: Packages, o: Packages)
    requires IsBuildGathering(rd, recursive, 0, dd, map[], o) && HasBuildDeps(rd, 0, dd, o)
    ensures IsAllBuildGathered(rd, recursive, dd, o) && (recursive ==> LibrariesAreClosed(rd, o))
  {
    hide ReachedFrom, IsListed;
    if recursive {
      forall n, k | n in o && ExecutableProject !in o[n].flags
                    && o[n].pkg in rd.dependencies && k in rd.dependencies[o[n].pkg]
                    && rd.IsLinked(rd.dependencies[o[n].pkg][k])
        ensures k in o
      {
        assert IsBuildGathered(rd, recursive, 0, dd, o, n) && k in Admitted(rd.Of(o[n].pkg), rd.IsLinked);
      }
    }
  }

  method AllDependencies(rd: Store, dd: Packages) returns (out: Packages)
    ensures IsAllGathered(rd, rd.AnyDep, dd, out) && IsClosedByName(rd, rd.AnyDep, out)
    ensures forall names | IsConsistent(rd, names, dd) ::
              && MeansSame(names, out)
              && forall n :: n in out <==> ReachedFrom(Via(rd, names, rd.AnyDep), dd.Keys, n)
  {
    hide *;
    var g := new Gatherer(rd);
    g.GatherAllDeps(dd);
    GatheredFromNothing(rd, rd.AnyDep, dd, g.out);
    EveryDepAdmitted(rd, dd);
    forall names | IsConsistent(rd, names, dd)
      ensures MeansSame(names, g.out)
      ensures forall n :: n in g.out <==> ReachedFrom(Via(rd, names, rd.AnyDep), dd.Keys, n)
    {
      GatheredByName(rd, names, rd.AnyDep, dd, g.out);
    }
    return g.out;
  }

  lemma EveryDepAdmitted(rd: Store, dd: Packages)
    ensures Admitted(dd, rd.AnyDep) == dd.Keys
  {
  }

  method CopyDependencies(rd: Store, dd: Packages) returns (out: Packages)
    ensures IsAllGathered(rd, rd.IsCopied, dd, out) && IsClosedByName(rd, rd.IsCopied, out)
    ensures forall names | IsConsistent(rd, names, dd) ::
              && MeansSame(names, out)
              && forall n :: n in out <==> ReachedFrom(Via(rd, names, rd.IsCopied), Admitted(dd, rd.IsCopied), n)
  {
    hide *;
    var g := new Gatherer(rd);
    g.GatherCopyDeps(dd);
    GatheredFromNothing(rd, rd.IsCopied, dd, g.out);
    forall names | IsConsistent(rd, names, dd)
      ensures MeansSame(names, g.out)
      ensures forall n :: n in g.out <==> ReachedFrom(Via(rd, names, rd.IsCopied), Admitted(dd, rd.IsCopied), n)
    {
      GatheredByName(rd, names, rd.IsCopied, dd, g.out);
    }
    return g.out;
  }

  method BuildDependencies(rd: Store, dd: Packages, recursive: bool) returns (out: Packages)
    ensures IsAllBuildGathered(rd, recursive, dd, out) && (recursive ==> LibrariesAreClosed(rd, out))
    ensures forall names, executables | IsConsistent(rd, names, dd) && AgreesOnExecutables(rd, executables, dd) ::
              && MeansSame(names, out)
              && forall n :: n in out <==> n in DirectExecutables(rd, dd) || IsBuildReached(rd, names, recursive, dd, n)
  {
    hide *;
    var g := new Gatherer(rd);
    g.GatherBuildDeps(dd, recursive, 0);
    BuildGatheredFromNothing(rd, recursive, dd, g.out);
    forall names, executables | IsConsistent(rd, names, dd) && AgreesOnExecutables(rd, executables, dd)
      ensures MeansSame(names, g.out)
      ensures forall n :: n in g.out <==>
                n in DirectExecutables(rd, dd) || IsBuildReached(rd, names, recursive, dd, n)
    {
      BuildGatheredByName(rd, names, executables, recursive, dd, g.out);
    }
    return g.out;
  }
}
