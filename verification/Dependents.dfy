/** The packages that depend on a package, directly and transitively. */
module Dependents {
  import opened Results
  import opened Graphs
  import opened Versions
  import opened PackagesDatabase
  import opened VersionLookup
  import opened DependencyGraph
  import opened EnteredPackages
  import opened DependencyWalk
  import opened DependencySearch

  /** The dependency accepts this version: it is the version, or may become it. */
  predicate Accepts(dependency: Version, version: VersionKey) {
    dependency.Same(Stored(version)) || dependency.CanBe(Stored(version))
  }

  function GetPackageId(db: Database, path: string): nat {
    match FindPath(db.projects, path)
    case Some(p) => p.id
    case None => 0
  }

  /** The joined rows of the dependencies on a project: what they ask for and whose they are. */
  function DependenciesOn(db: Database, projectId: nat): set<(Version, Package)> {
    set d, row | d in db.dependencies && row in db.versions && d.projectId == projectId && row.id == d.versionId
      :: (d.version, KeyOf(db, row))
  }

  ghost function DependentsOf(db: Database, pkg: Package): set<Package> {
    set d, row | d in db.dependencies && row in db.versions && row.id == d.versionId
                 && PathOf(db, d.projectId) == pkg.path && Accepts(d.version, pkg.version)
      :: KeyOf(db, row)
  }

  ghost function Pred(db: Database): Package -> set<Package> {
    pkg => DependentsOf(db, pkg)
  }

  method GetDependentPackages(db: Database, pkg: Package) returns (r: set<Package>)
    ensures r == DependentsOf(db, pkg)
  {
    hide DependenciesOn, DependentsOf, WellFormed, Accepts;
    r := {};
    var projectId := GetPackageId(db, pkg.path);
    var rows := DependenciesOn(db, projectId);
    var todo := rows;
    while todo != {}
      invariant todo <= rows
      invariant r == set x | x in rows - todo && Accepts(x.0, pkg.version) :: x.1
      decreases |todo|
    {
      var p :| p in todo;
      ghost var before := todo;
      if Accepts(p.0, pkg.version) {
        r := r + {p.1};
      }
      todo := todo - {p};
      assert rows - todo == rows - before + {p};
    }
    assert rows - todo == rows;
    RowsOfProject(db, pkg);
  }

  lemma RowsOfProject(db: Database, pkg: Package)
    ensures (set x | x in DependenciesOn(db, GetPackageId(db, pkg.path)) && Accepts(x.0, pkg.version) :: x.1)
         == DependentsOf(db, pkg)
  {
    hide Accepts, KeyOf, WellFormed, GetPackageId;
    var projectId := GetPackageId(db, pkg.path);
    forall d | d in db.dependencies
      ensures d.projectId == projectId <==> PathOf(db, d.projectId) == pkg.path
    {
      ProjectHasPath(db, d, pkg.path);
    }
    forall k | k in DependentsOf(db, pkg)
      ensures k in set x | x in DependenciesOn(db, projectId) && Accepts(x.0, pkg.version) :: x.1
    {
      var d, row :| d in db.dependencies && row in db.versions && row.id == d.versionId
                    && PathOf(db, d.projectId) == pkg.path && Accepts(d.version, pkg.version) && KeyOf(db, row) == k;
      assert (d.version, k) in DependenciesOn(db, projectId);
    }
  }

  lemma ProjectHasPath(db: Database, d: DependencyRow, path: string)
    requires d in db.dependencies
    ensures d.projectId == GetPackageId(db, path) <==> PathOf(db, d.projectId) == path
  {
    assert IsDependencyRow(db.projects, d);
    var q := FindProject(db.projects, d.projectId).value;
    assert IsProjectRow(q);
    var p := FindPath(db.projects, path);
    if p.Some? {
      assert SameProject(p.value, q) ==> p.value == q;
    }
  }

  // ----- which dependencies the reverse query finds -----

  /** The numbers of a request, its branch left aside. */
  function NumbersOf(v: Version): Version { Version(v.major, v.minor, v.patch, "", Exact) }

  /** The lookup of a numbered row answers the dependency, or could if it were not for a branch; a
      branch that is given with a patch number is found by no version. */
  predicate Wants(d: DependencyRow, row: VersionRow) {
    d.projectId == row.projectId &&
    if d.version.IsBranch() then d.version.patch == -1 && Answers(NumbersOf(d.version), row)
    else Answers(d.version, row)
  }

  /** The reverse query finds the owner of a dependency exactly when the row may answer it, branches
      apart: a dependency on a branch, as it is read from text, is found by every number. */
  lemma NumbersAreFoundIff(db: Database, row: VersionRow, owner: VersionRow)
    requires row in db.versions && owner in db.versions && row.version.Numbers?
    ensures KeyOf(db, owner) in DependentsOf(db, KeyOf(db, row))
       <==> exists d :: d in EdgesOf(db, owner.id) && Wants(d, row)
    ensures forall d: DependencyRow | d.projectId == row.projectId && IsParsed(d.version) ::
              Wants(d, row) <==> d.version.IsBranch() || Answers(d.version, row)
  {
    hide KeyOf, WellFormed, Accepts, Answers;
    FoundByDependency(db, row, owner);
    forall d | d in EdgesOf(db, owner.id) && d.projectId == row.projectId
      ensures Accepts(d.version, row.version) <==> Wants(d, row)
    {
      AcceptsNumbersIff(db, d, row);
    }
    forall d: DependencyRow | d.projectId == row.projectId && IsParsed(d.version)
      ensures Wants(d, row) <==> d.version.IsBranch() || Answers(d.version, row)
    {
      ParsedBranchWantsAll(d, row);
    }
  }

  lemma FoundByDependency(db: Database, row: VersionRow, owner: VersionRow)
    requires row in db.versions && owner in db.versions
    ensures KeyOf(db, owner) in DependentsOf(db, KeyOf(db, row))
       <==> exists d :: d in EdgesOf(db, owner.id) && d.projectId == row.projectId && Accepts(d.version, row.version)
  {
    hide WellFormed, Accepts, PathOf;
    forall d | d in db.dependencies
      ensures PathOf(db, d.projectId) == PathOf(db, row.projectId) <==> d.projectId == row.projectId
    {
      ProjectsDiffer(db, d, row);
    }
    forall other | other in db.versions && KeyOf(db, other) == KeyOf(db, owner)
      ensures other == owner
    {
      KeyOfIsInjective(db, other, owner);
    }
  }

  lemma ProjectsDiffer(db: Database, d: DependencyRow, row: VersionRow)
    requires d in db.dependencies && row in db.versions
    ensures PathOf(db, d.projectId) == PathOf(db, row.projectId) <==> d.projectId == row.projectId
  {
    assert IsDependencyRow(db.projects, d) && IsVersionRow(db.projects, row);
    if PathOf(db, d.projectId) == PathOf(db, row.projectId) {
      PathOfIsInjective(db, d.projectId, row.projectId);
    }
  }

  lemma AcceptsNumbersIff(db: Database, d: DependencyRow, row: VersionRow)
    requires row in db.versions && d.projectId == row.projectId && row.version.Numbers?
    ensures Accepts(d.version, row.version) <==> Wants(d, row)
  {
    assert IsVersionRow(db.projects, row);
  }

  lemma ParsedBranchWantsAll(d: DependencyRow, row: VersionRow)
    requires d.projectId == row.projectId && IsParsed(d.version) && row.version.Numbers?
    ensures Wants(d, row) <==> d.version.IsBranch() || Answers(d.version, row)
  {
  }

  /** A branch is found by the dependencies on just this branch and by those that leave all numbers
      open, as every dependency on a branch does that is read from text. */
  lemma BranchIsFoundIff(db: Database, row: VersionRow, owner: VersionRow)
    requires row in db.versions && owner in db.versions && row.version.BranchName?
    ensures KeyOf(db, owner) in DependentsOf(db, KeyOf(db, row))
       <==> exists d :: d in EdgesOf(db, owner.id) && d.projectId == row.projectId
                        && (Answers(d.version, row) || d.version.major == d.version.minor == d.version.patch == -1)
  {
    hide KeyOf, WellFormed, Accepts, Answers;
    FoundByDependency(db, row, owner);
    forall d | d in EdgesOf(db, owner.id)
      ensures Accepts(d.version, row.version)
         <==> Answers(d.version, row) || d.version.major == d.version.minor == d.version.patch == -1
    {
      AcceptsBranchIff(db, d, row);
    }
  }

  lemma AcceptsBranchIff(db: Database, d: DependencyRow, row: VersionRow)
    requires row in db.versions && row.version.BranchName?
    ensures Accepts(d.version, row.version)
       <==> Answers(d.version, row) || d.version.major == d.version.minor == d.version.patch == -1
  {
    assert IsVersionRow(db.projects, row);
  }

  // ----- the transitive walk as a relation -----

  /** The packages gathered so far and the cache of the single-step results. */
  datatype State = State(r: set<Package>, retrieved: map<Package, set<Package>>)

  function Gathered(retrieved: map<Package, set<Package>>, visited: set<Package>): set<Package> {
    set k, p | k in visited && k in retrieved && p in retrieved[k] :: p
  }

  /** The edges that a pass has followed: those out of the cached packages that it has met. */
  ghost function Followed(retrieved: map<Package, set<Package>>, visited: set<Package>): Package -> set<Package> {
    k => if k in visited && k in retrieved then retrieved[k] else {}
  }

  ghost predicate IsFollowedTo(s: State, visited: set<Package>, p: Package) {
    ReachedFrom(Followed(s.retrieved, visited), s.r, p)
  }

  /** A pass has met these packages, all of them cached, and has gathered r. Whether it also meets
      packages that it has itself taken in is left open. */
  ghost predicate IsSweep(s: State, visited: set<Package>, r: set<Package>) {
    && visited <= r && visited <= s.retrieved.Keys && r == s.r + Gathered(s.retrieved, visited)
    && forall p {:trigger IsFollowedTo(s, visited, p)} | p in r :: IsFollowedTo(s, visited, p)
  }

  /** A pass that takes in some cached packages and stops at the first one that is not cached. */
  ghost predicate IsPass(db: Database, s: State, t: State) {
    exists visited: set<Package>, r: set<Package>, next :: IsPassVia(db, s, t, visited, r, next)
  }

  ghost predicate IsPassVia(db: Database, s: State, t: State, visited: set<Package>, r: set<Package>, next: Package) {
    && IsSweep(s, visited, r) && next in r && next !in s.retrieved
    && t == State(r + Pred(db)(next), s.retrieved[next := Pred(db)(next)])
  }

  /** A pass that finds all it meets in the cache; nothing has "changed" then, and the walk ends. */
  ghost predicate IsLastPass(s: State, result: set<Package>) {
    exists visited :: s.r <= visited && IsSweep(s, visited, result)
  }

  ghost predicate Passes(db: Database, s: State, t: State, n: nat)
    decreases n
  {
    if n == 0 then s == t
    else exists m :: Passes(db, s, m, n - 1) && IsPass(db, m, t)
  }

  /** Some order of iteration gathers this set, the input included. */
  ghost predicate IsOutcome(db: Database, s: State, result: set<Package>) {
    exists n: nat, t :: Passes(db, s, t, n) && IsLastPass(t, result)
  }

  ghost predicate IsCorrect(db: Database, retrieved: map<Package, set<Package>>) {
    forall k | k in retrieved :: retrieved[k] == Pred(db)(k)
  }

  /** The package depends on one of these, and is not one of them. */
  ghost predicate IsDependent(db: Database, pkgs: set<Package>, p: Package) {
    ReachedFrom(Pred(db), pkgs, p) && p !in pkgs
  }

  /** The dependents of every cached package are cached, too. */
  ghost predicate IsClosedCache(db: Database, cached: set<Package>) {
    forall k | k in cached :: Pred(db)(k) <= cached
  }

  // ----- the method -----

  class DependentsCache {
    const db: Database
    var retrieved: map<Package, set<Package>>

    constructor (db: Database)
      ensures this.db == db && retrieved == map[]
    {
      this.db := db;
      retrieved := map[];
    }

    /** A pass meets every package gathered when it starts, and any of those that it takes in. */
    method GetTransitiveDependentPackages(pkgs: set<Package>) returns (r: set<Package>)
      requires IsCorrect(db, retrieved)
      modifies this
      ensures IsCorrect(db, retrieved) && old(retrieved).Keys <= retrieved.Keys
      ensures exists result :: IsOutcome(db, State(pkgs, old(retrieved)), result) && r == result - pkgs
      ensures forall p | p in r :: IsDependent(db, pkgs, p)
      ensures CacheIsHarmless(db, old(retrieved).Keys, pkgs) ==> forall p | IsDependent(db, pkgs, p) :: p in r
      ensures IsClosedCache(db, old(retrieved).Keys) ==> IsClosedCache(db, retrieved.Keys)
      ensures old(retrieved) == map[] ==> forall p :: p in retrieved <==> ReachedFrom(Pred(db), pkgs, p)
    {
      hide *;
      r := pkgs;
      ghost var n := 0;
      ghost var all := pkgs + Universe(db);
      StartsHere(db, State(pkgs, retrieved));
      while true
        invariant IsCorrect(db, retrieved) && old(retrieved).Keys <= retrieved.Keys && r <= all
        invariant Passes(db, State(pkgs, old(retrieved)), State(r, retrieved), n)
        decreases |all - retrieved.Keys|
      {
        var changed := false;
        ghost var s := State(r, retrieved);
        ghost var visited := {};
        var todo := r;
        SweepStarts(s);
        while todo != {}
          invariant todo <= r <= all && s.r <= visited + todo && retrieved == s.retrieved && !changed
          invariant IsSweep(s, visited, r)
          decreases |all - r|, |todo|
        {
          var pkg :| pkg in todo;
          ghost var before := r;
          assert todo - {pkg} + {pkg} == todo;
          todo := todo - {pkg};
          if pkg in retrieved {
            SweepGoesOn(db, s, visited, r, pkg);
            var met :| met <= retrieved[pkg] - r;
            r := r + retrieved[pkg];
            StillToMeet(s.r, visited, todo, pkg, met, r);
            visited := visited + {pkg};
            todo := todo + met;
            SweepShrinks(all, before, r, met);
            continue;
          }
          changed := true;
          var dpkgs := GetDependentPackages(db, pkg);
          PredIs(db, pkg);
          PassMade(db, s, visited, r, pkg, all);
          r := r + dpkgs;
          retrieved := retrieved[pkg := dpkgs];
          SmallerSubset(all - retrieved.Keys, all - s.retrieved.Keys, pkg);
          break;
        }
        if !changed {
          Ended(db, State(pkgs, old(retrieved)), s, n, visited, r);
          OutcomeMeans(db, pkgs, old(retrieved), r);
          CacheLeft(db, pkgs, old(retrieved), s, n);
          break;
        }
        PassOnce(db, State(pkgs, old(retrieved)), s, State(r, retrieved), n);
        n := n + 1;
      }
      r := r - pkgs;
    }
  }

  lemma StartsHere(db: Database, s: State)
    ensures Passes(db, s, s, 0)
  {
  }

  lemma SweepStarts(s: State)
    ensures IsSweep(s, {}, s.r)
  {
    forall p | p in s.r
      ensures ReachedFrom(Followed(s.retrieved, {}), s.r, p)
    {
      ReachesSelf(Followed(s.retrieved, {}), p);
    }
  }

  /** Meeting one more cached package takes in what the cache has for it. */
  lemma SweepGoesOn(db: Database, s: State, visited: set<Package>, r: set<Package>, pkg: Package)
    requires IsSweep(s, visited, r) && pkg in r && pkg in s.retrieved
    ensures IsSweep(s, visited + {pkg}, r + s.retrieved[pkg])
    ensures IsCorrect(db, s.retrieved) ==> s.retrieved[pkg] <= Universe(db)
  {
    hide ReachedFrom, WellFormed, Pred;
    var few, more := Followed(s.retrieved, visited), Followed(s.retrieved, visited + {pkg});
    FollowedMore(few, more, s.r);
    forall p | p in r
      ensures ReachedFrom(more, s.r, p)
    {
      assert IsFollowedTo(s, visited, p);
    }
    forall p | p in s.retrieved[pkg]
      ensures ReachedFrom(more, s.r, p)
    {
      OneFurther(more, s.r, pkg, p);
    }
    assert Gathered(s.retrieved, visited + {pkg}) == Gathered(s.retrieved, visited) + s.retrieved[pkg];
    PredIs(db, pkg);
  }

  lemma FollowedMore(few: Package -> set<Package>, more: Package -> set<Package>, roots: set<Package>)
    requires forall k :: few(k) <= more(k)
    ensures forall p | ReachedFrom(few, roots, p) :: ReachedFrom(more, roots, p)
  {
    forall p | ReachedFrom(few, roots, p)
      ensures ReachedFrom(more, roots, p)
    {
      var a :| a in roots && Reaches(few, a, p);
      ReachesWithMoreEdges(few, more, a, p);
    }
  }

  lemma OneFurther(succ: Package -> set<Package>, roots: set<Package>, p: Package, q: Package)
    requires ReachedFrom(succ, roots, p) && q in succ(p)
    ensures ReachedFrom(succ, roots, q)
  {
    var a :| a in roots && Reaches(succ, a, p);
    ReachesEdge(succ, p, q);
    ReachesTransitive(succ, a, p, q);
  }

  lemma StillToMeet(start: set<Package>, visited: set<Package>, todo: set<Package>, pkg: Package, met: set<Package>,
                    r: set<Package>)
    requires todo <= r && met <= r && start <= visited + (todo + {pkg})
    ensures todo + met <= r && start <= visited + {pkg} + (todo + met)
  {
  }

  /** A pass that meets what it takes in has less left to take in. */
  lemma SweepShrinks(all: set<Package>, before: set<Package>, r: set<Package>, met: set<Package>)
    requires before <= r <= all && met <= r - before
    ensures if met == {} then |all - r| <= |all - before| else |all - r| < |all - before|
  {
    NotLarger(all - r, all - before);
    if p :| p in met {
      SmallerSubset(all - r, all - before, p);
    }
  }

  lemma PassMade(db: Database, s: State, visited: set<Package>, r: set<Package>, next: Package, all: set<Package>)
    requires IsCorrect(db, s.retrieved) && r <= all && Universe(db) <= all
    requires IsSweep(s, visited, r) && next in r && next !in s.retrieved
    ensures var t := State(r + Pred(db)(next), s.retrieved[next := Pred(db)(next)]);
            IsPass(db, s, t) && IsCorrect(db, t.retrieved) && t.r <= all
  {
    hide IsSweep;
    PredIs(db, next);
    var t := State(r + Pred(db)(next), s.retrieved[next := Pred(db)(next)]);
    assert IsPassVia(db, s, t, visited, r, next);
  }

  lemma Ended(db: Database, start: State, s: State, n: nat, visited: set<Package>, result: set<Package>)
    requires Passes(db, start, s, n) && s.r <= visited && IsSweep(s, visited, result)
    ensures IsOutcome(db, start, result) && s.r <= s.retrieved.Keys
  {
    hide IsSweep, Passes;
    assert IsLastPass(s, result);
    SweepIsCached(s, visited, result);
  }

  lemma SweepIsCached(s: State, visited: set<Package>, r: set<Package>)
    requires IsSweep(s, visited, r)
    ensures visited <= s.retrieved.Keys
  {
    hide ReachedFrom, Gathered;
  }

  lemma PassOnce(db: Database, s: State, t: State, u: State, n: nat)
    requires Passes(db, s, t, n) && IsPass(db, t, u)
    ensures Passes(db, s, u, n + 1)
  {
  }

  lemma PredIs(db: Database, pkg: Package)
    ensures Pred(db)(pkg) == DependentsOf(db, pkg) && DependentsOf(db, pkg) <= Universe(db)
  {
  }

  // ----- which packages an outcome holds -----

  /** Edges are followed only out of packages that were not cached beforehand. */
  ghost function ColdPred(db: Database, cached: set<Package>): Package -> set<Package> {
    pkg => if pkg in cached then {} else Pred(db)(pkg)
  }

  /** Reached without passing through a package cached beforehand, or one step from such. */
  ghost predicate IsKept(db: Database, cached: set<Package>, pkgs: set<Package>, p: Package) {
    || ReachedFrom(ColdPred(db, cached), pkgs, p)
    || exists q :: ReachedFrom(ColdPred(db, cached), pkgs, q) && p in Pred(db)(q)
  }

  /** Nothing depends on the packages transitively but what is kept. */
  ghost predicate CacheIsHarmless(db: Database, cached: set<Package>, pkgs: set<Package>) {
    forall p :: ReachedFrom(Pred(db), pkgs, p) ==> IsKept(db, cached, pkgs, p)
  }

  /** A state between passes: correct, all reached, and what was retrieved lately is taken in. */
  ghost predicate IsMidway(db: Database, s: State, cached: set<Package>, pkgs: set<Package>) {
    && IsCorrect(db, s.retrieved) && cached <= s.retrieved.Keys && pkgs <= s.r
    && (forall p | p in s.r :: ReachedFrom(Pred(db), pkgs, p))
    && (forall k | k in s.retrieved && k !in cached :: k in s.r && Pred(db)(k) <= s.r)
  }

  lemma FollowedIsCorrect(db: Database, retrieved: map<Package, set<Package>>, visited: set<Package>)
    requires IsCorrect(db, retrieved)
    ensures forall k :: Followed(retrieved, visited)(k) <= Pred(db)(k)
  {
    hide Pred;
  }

  /** A pass gathers only what is reached. */
  lemma SweepIsReached(db: Database, s: State, visited: set<Package>, r: set<Package>, pkgs: set<Package>)
    requires IsCorrect(db, s.retrieved) && IsSweep(s, visited, r)
    requires forall p | p in s.r :: ReachedFrom(Pred(db), pkgs, p)
    ensures forall p | p in r :: ReachedFrom(Pred(db), pkgs, p)
  {
    hide Pred, Gathered, Reaches;
    FollowedIsCorrect(db, s.retrieved, visited);
    var followed := Followed(s.retrieved, visited);
    forall p | p in r
      ensures ReachedFrom(Pred(db), pkgs, p)
    {
      assert IsFollowedTo(s, visited, p);
      var a :| a in s.r && Reaches(followed, a, p);
      ReachesWithMoreEdges(followed, Pred(db), a, p);
      var b :| b in pkgs && Reaches(Pred(db), b, a);
      ReachesTransitive(Pred(db), b, a, p);
    }
  }

  lemma MidwayAfterPass(db: Database, s: State, t: State, cached: set<Package>, pkgs: set<Package>)
    requires IsMidway(db, s, cached, pkgs) && IsPass(db, s, t)
    ensures IsMidway(db, t, cached, pkgs)
  {
    hide Pred, ReachedFrom, WellFormed;
    var visited: set<Package>, r: set<Package>, next :| IsPassVia(db, s, t, visited, r, next);
    SweepIsReached(db, s, visited, r, pkgs);
    forall p | p in Pred(db)(next)
      ensures ReachedFrom(Pred(db), pkgs, p)
    {
      OneFurther(Pred(db), pkgs, next, p);
    }
  }

  lemma {:induction false} MidwayAfterPasses(db: Database, s: State, t: State, n: nat, cached: set<Package>,
                                             pkgs: set<Package>)
    requires IsMidway(db, s, cached, pkgs) && Passes(db, s, t, n)
    ensures IsMidway(db, t, cached, pkgs)
    decreases n
  {
    hide IsMidway, IsPass;
    if n > 0 {
      var m :| Passes(db, s, m, n - 1) && IsPass(db, m, t);
      MidwayAfterPasses(db, s, m, n - 1, cached, pkgs);
      MidwayAfterPass(db, m, t, cached, pkgs);
    }
  }

  lemma StartIsMidway(db: Database, pkgs: set<Package>, retrieved: map<Package, set<Package>>)
    requires IsCorrect(db, retrieved)
    ensures IsMidway(db, State(pkgs, retrieved), retrieved.Keys, pkgs)
  {
    forall p | p in pkgs
      ensures ReachedFrom(Pred(db), pkgs, p)
    {
      ReachesSelf(Pred(db), p);
    }
  }

  /** When a walk ends, what it has gathered before the last pass holds all that is reached
      without passing through cached packages. */
  lemma EndIsClosed(db: Database, s: State, cached: set<Package>, pkgs: set<Package>, p: Package)
    requires IsMidway(db, s, cached, pkgs) && s.r <= s.retrieved.Keys
    requires ReachedFrom(ColdPred(db, cached), pkgs, p)
    ensures p in s.r
  {
    hide Pred, ReachedFrom, WellFormed;
    ClosedHoldsReached(ColdPred(db, cached), pkgs, s.r, p);
  }

  /** Whatever the order, an outcome holds what is kept and only what is reached. */
  lemma OutcomeIsBetween(db: Database, pkgs: set<Package>, retrieved: map<Package, set<Package>>, result: set<Package>)
    requires IsCorrect(db, retrieved) && IsOutcome(db, State(pkgs, retrieved), result)
    ensures forall p | p in result :: ReachedFrom(Pred(db), pkgs, p)
    ensures forall p | IsKept(db, retrieved.Keys, pkgs, p) :: p in result
  {
    hide Pred, ReachedFrom, WellFormed, Passes;
    var n: nat, s :| Passes(db, State(pkgs, retrieved), s, n) && IsLastPass(s, result);
    StartIsMidway(db, pkgs, retrieved);
    MidwayAfterPasses(db, State(pkgs, retrieved), s, n, retrieved.Keys, pkgs);
    var visited :| s.r <= visited && IsSweep(s, visited, result);
    SweepIsReached(db, s, visited, result, pkgs);
    SweepTakesIn(db, s, visited, result);
    forall p | IsKept(db, retrieved.Keys, pkgs, p)
      ensures p in result
    {
      if ReachedFrom(ColdPred(db, retrieved.Keys), pkgs, p) {
        EndIsClosed(db, s, retrieved.Keys, pkgs, p);
      } else {
        var q :| ReachedFrom(ColdPred(db, retrieved.Keys), pkgs, q) && p in Pred(db)(q);
        EndIsClosed(db, s, retrieved.Keys, pkgs, q);
      }
    }
  }

  lemma SweepTakesIn(db: Database, s: State, visited: set<Package>, r: set<Package>)
    requires IsCorrect(db, s.retrieved) && IsSweep(s, visited, r)
    ensures s.r <= r && forall q | q in visited :: Pred(db)(q) <= r
  {
    hide Pred;
  }

  // ----- the least outcome -----

  ghost predicate IsLeast(db: Database, cached: set<Package>, pkgs: set<Package>, result: set<Package>) {
    forall p :: p in result <==> IsKept(db, cached, pkgs, p)
  }

  lemma ColdReachedOneFurther(db: Database, cached: set<Package>, pkgs: set<Package>, p: Package)
    requires ReachedFrom(ColdPred(db, cached), pkgs, p) && p !in cached
    ensures forall q | q in Pred(db)(p) :: ReachedFrom(ColdPred(db, cached), pkgs, q)
  {
    hide Pred, ReachedFrom;
    forall q | q in Pred(db)(p)
      ensures ReachedFrom(ColdPred(db, cached), pkgs, q)
    {
      OneFurther(ColdPred(db, cached), pkgs, p, q);
    }
  }

  /** Passes that always meet an uncached package first gather nothing but what is kept. */
  lemma {:induction false} UncachedFirst(db: Database, start: State, s: State, n: nat, cached: set<Package>,
                                         pkgs: set<Package>)
    returns (result: set<Package>)
    requires Passes(db, start, s, n) && IsMidway(db, s, cached, pkgs)
    requires s.r <= pkgs + Universe(db) && forall p | p in s.r :: ReachedFrom(ColdPred(db, cached), pkgs, p)
    ensures IsOutcome(db, start, result) && IsLeast(db, cached, pkgs, result)
    decreases |pkgs + Universe(db) - s.retrieved.Keys|
  {
    hide Pred, ReachedFrom, WellFormed, Passes;
    if s.r <= s.retrieved.Keys {
      result := s.r + Gathered(s.retrieved, s.r);
      ShortestPass(s);
      LastPassIsLeast(db, s, cached, pkgs, result);
    } else {
      var next :| next in s.r && next !in s.retrieved;
      var t := State(s.r + Pred(db)(next), s.retrieved[next := Pred(db)(next)]);
      SweepStarts(s);
      assert IsPassVia(db, s, t, {}, s.r, next);
      PassOnce(db, start, s, t, n);
      MidwayAfterPass(db, s, t, cached, pkgs);
      ColdReachedOneFurther(db, cached, pkgs, next);
      PredIs(db, next);
      SmallerSubset(pkgs + Universe(db) - t.retrieved.Keys, pkgs + Universe(db) - s.retrieved.Keys, next);
      result := UncachedFirst(db, start, t, n + 1, cached, pkgs);
    }
  }

  /** A last pass need not meet anything that it takes in. */
  lemma ShortestPass(s: State)
    requires s.r <= s.retrieved.Keys
    ensures IsLastPass(s, s.r + Gathered(s.retrieved, s.r))
  {
    var followed := Followed(s.retrieved, s.r);
    forall p | p in s.r + Gathered(s.retrieved, s.r)
      ensures ReachedFrom(followed, s.r, p)
    {
      if p in s.r {
        ReachesSelf(followed, p);
      } else {
        var k :| k in s.r && k in s.retrieved && p in s.retrieved[k];
        ReachesEdge(followed, k, p);
      }
    }
    assert IsSweep(s, s.r, s.r + Gathered(s.retrieved, s.r));
  }

  lemma LastPassIsLeast(db: Database, s: State, cached: set<Package>, pkgs: set<Package>, result: set<Package>)
    requires IsMidway(db, s, cached, pkgs) && s.r <= s.retrieved.Keys && result == s.r + Gathered(s.retrieved, s.r)
    requires forall p | p in s.r :: ReachedFrom(ColdPred(db, cached), pkgs, p)
    ensures IsLeast(db, cached, pkgs, result)
  {
    hide Pred, ReachedFrom, WellFormed;
    forall p
      ensures p in result <==> IsKept(db, cached, pkgs, p)
    {
      if p in result && p !in s.r {
        var k :| k in s.r && k in s.retrieved && p in s.retrieved[k];
        assert p in Pred(db)(k);
      }
      if ReachedFrom(ColdPred(db, cached), pkgs, p) {
        EndIsClosed(db, s, cached, pkgs, p);
      } else if IsKept(db, cached, pkgs, p) {
        var q :| ReachedFrom(ColdPred(db, cached), pkgs, q) && p in Pred(db)(q);
        EndIsClosed(db, s, cached, pkgs, q);
      }
    }
  }

  lemma LeastOutcomeExists(db: Database, pkgs: set<Package>, retrieved: map<Package, set<Package>>)
    returns (result: set<Package>)
    requires IsCorrect(db, retrieved)
    ensures IsOutcome(db, State(pkgs, retrieved), result) && IsLeast(db, retrieved.Keys, pkgs, result)
  {
    StartIsMidway(db, pkgs, retrieved);
    forall p | p in pkgs
      ensures ReachedFrom(ColdPred(db, retrieved.Keys), pkgs, p)
    {
      ReachesSelf(ColdPred(db, retrieved.Keys), p);
    }
    result := UncachedFirst(db, State(pkgs, retrieved), State(pkgs, retrieved), 0, retrieved.Keys, pkgs);
  }

  // ----- completeness -----

  ghost predicate IsClosure(db: Database, pkgs: set<Package>, result: set<Package>) {
    forall p :: p in result <==> ReachedFrom(Pred(db), pkgs, p)
  }

  /** The result is the transitive closure in every order of iteration exactly when the cache is
      harmless: the cached branch of the loop does not report what it adds. */
  lemma CompleteIffCacheIsHarmless(db: Database, pkgs: set<Package>, retrieved: map<Package, set<Package>>)
    requires IsCorrect(db, retrieved)
    ensures (forall result | IsOutcome(db, State(pkgs, retrieved), result) :: IsClosure(db, pkgs, result))
       <==> CacheIsHarmless(db, retrieved.Keys, pkgs)
  {
    hide IsKept, ReachedFrom, IsOutcome, Pred, WellFormed;
    if CacheIsHarmless(db, retrieved.Keys, pkgs) {
      forall result | IsOutcome(db, State(pkgs, retrieved), result)
        ensures IsClosure(db, pkgs, result)
      {
        OutcomeIsBetween(db, pkgs, retrieved, result);
      }
    } else {
      var result := LeastOutcomeExists(db, pkgs, retrieved);
      assert !IsClosure(db, pkgs, result);
    }
  }

  /** A cache without any of the packages in question is harmless; so is the empty cache. */
  lemma ColdCacheIsHarmless(db: Database, cached: set<Package>, pkgs: set<Package>)
    requires forall p | p in cached :: !ReachedFrom(Pred(db), pkgs, p)
    ensures CacheIsHarmless(db, cached, pkgs)
  {
    forall p | ReachedFrom(Pred(db), pkgs, p)
      ensures IsKept(db, cached, pkgs, p)
    {
      var a :| a in pkgs && Reaches(Pred(db), a, p);
      var n: nat :| InSteps(Pred(db), a, p, n);
      ReachesSelf(Pred(db), a);
      ColdSteps(db, cached, pkgs, a, a, p, n);
    }
  }

  lemma {:induction false} ColdSteps(db: Database, cached: set<Package>, pkgs: set<Package>, root: Package,
                                     a: Package, p: Package, n: nat)
    requires forall q | q in cached :: !ReachedFrom(Pred(db), pkgs, q)
    requires root in pkgs && Reaches(Pred(db), root, a) && InSteps(Pred(db), a, p, n)
    ensures InSteps(ColdPred(db, cached), a, p, n)
    decreases n
  {
    hide Pred, WellFormed;
    if n > 0 {
      var c :| c in Pred(db)(a) && InSteps(Pred(db), c, p, n - 1);
      ReachesEdge(Pred(db), a, c);
      ReachesTransitive(Pred(db), root, a, c);
      ColdSteps(db, cached, pkgs, root, c, p, n - 1);
      assert c in ColdPred(db, cached)(a);
    }
  }

  /** What the method returns, given the outcome of its passes. */
  lemma OutcomeMeans(db: Database, pkgs: set<Package>, retrieved: map<Package, set<Package>>, result: set<Package>)
    requires IsCorrect(db, retrieved) && IsOutcome(db, State(pkgs, retrieved), result)
    ensures forall p | p in result - pkgs :: IsDependent(db, pkgs, p)
    ensures CacheIsHarmless(db, retrieved.Keys, pkgs) ==> forall p | IsDependent(db, pkgs, p) :: p in result - pkgs
  {
    hide IsOutcome, ReachedFrom, Pred, IsKept, WellFormed, IsCorrect;
    OutcomeIsBetween(db, pkgs, retrieved, result);
  }

  /** The cache that completed passes leave: it stays closed, and from the empty cache it holds
      exactly what is reached. */
  lemma CacheLeft(db: Database, pkgs: set<Package>, retrieved: map<Package, set<Package>>, s: State, n: nat)
    requires IsCorrect(db, retrieved) && Passes(db, State(pkgs, retrieved), s, n) && s.r <= s.retrieved.Keys
    ensures IsClosedCache(db, retrieved.Keys) ==> IsClosedCache(db, s.retrieved.Keys)
    ensures retrieved == map[] ==> forall p :: p in s.retrieved <==> ReachedFrom(Pred(db), pkgs, p)
  {
    hide Pred, ReachedFrom, WellFormed, Passes, IsCorrect;
    StartIsMidway(db, pkgs, retrieved);
    MidwayAfterPasses(db, State(pkgs, retrieved), s, n, retrieved.Keys, pkgs);
    if retrieved == map[] {
      assert s.retrieved.Keys == s.r;
      ClosedAndReached(Pred(db), pkgs, s.r);
    }
  }

  /** A repeated query, all of whose packages are cached, is certain of direct dependents only. */
  lemma RepeatedQueryKeepsDirect(db: Database, cached: set<Package>, pkgs: set<Package>, p: Package)
    requires pkgs <= cached
    ensures IsKept(db, cached, pkgs, p) <==> p in pkgs || exists a :: a in pkgs && p in Pred(db)(a)
  {
    hide Pred, WellFormed;
    var cold := ColdPred(db, cached);
    forall a | a in pkgs
      ensures ReachedFrom(cold, pkgs, a)
    {
      ReachesSelf(cold, a);
    }
    forall q | ReachedFrom(cold, pkgs, q)
      ensures q in pkgs
    {
      ClosedHoldsReached(cold, pkgs, pkgs, q);
    }
  }

  /** Hence it is complete, in every order, exactly when two steps lead no further than one. */
  lemma RepeatedQueryIsCompleteIff(db: Database, cached: set<Package>, pkgs: set<Package>)
    requires pkgs <= cached
    ensures CacheIsHarmless(db, cached, pkgs)
       <==> forall a, b, c | a in pkgs && b in Pred(db)(a) && c in Pred(db)(b) ::
              c in pkgs || exists d :: d in pkgs && c in Pred(db)(d)
  {
    hide Pred, WellFormed, IsKept;
    var near := set p | p in pkgs + Universe(db) && IsNear(db, pkgs, p);
    forall p
      ensures IsKept(db, cached, pkgs, p) <==> IsNear(db, pkgs, p)
      ensures IsNear(db, pkgs, p) <==> p in near
    {
      RepeatedQueryKeepsDirect(db, cached, pkgs, p);
      if IsNear(db, pkgs, p) {
        NearIsKnown(db, pkgs, p);
      }
    }
    NearIsReached(db, pkgs);
    if forall a, b, c | a in pkgs && b in Pred(db)(a) && c in Pred(db)(b) :: IsNear(db, pkgs, c) {
      assert IsClosed(Pred(db), near);
      forall p | ReachedFrom(Pred(db), pkgs, p)
        ensures p in near
      {
        ClosedHoldsReached(Pred(db), pkgs, near, p);
      }
    }
  }

  ghost predicate IsNear(db: Database, pkgs: set<Package>, p: Package) {
    p in pkgs || exists d :: d in pkgs && p in Pred(db)(d)
  }

  lemma NearIsKnown(db: Database, pkgs: set<Package>, p: Package)
    requires IsNear(db, pkgs, p)
    ensures p in pkgs + Universe(db)
  {
    if p !in pkgs {
      var d :| d in pkgs && p in Pred(db)(d);
      PredIs(db, d);
    }
  }

  /** What is two steps from the packages is reached. */
  lemma NearIsReached(db: Database, pkgs: set<Package>)
    ensures forall a, b, c | a in pkgs && b in Pred(db)(a) && c in Pred(db)(b) :: ReachedFrom(Pred(db), pkgs, c)
  {
    forall a, b, c | a in pkgs && b in Pred(db)(a) && c in Pred(db)(b)
      ensures ReachedFrom(Pred(db), pkgs, c)
    {
      ReachesEdge(Pred(db), b, c);
      ReachesAfterEdge(Pred(db), a, b, c);
    }
  }

  // ----- forward and reverse -----

  /** A dependency that resolves to a package accepts it, so the reverse query finds its owner. */
  lemma EdgeIsReversed(db: Database, a: VersionRow, b: VersionRow)
    requires a in db.versions && b in Succ(db)(a)
    ensures KeyOf(db, a) in Pred(db)(KeyOf(db, b))
  {
    var e :| e in EdgesOf(db, a.id) && Resolve(db, e.projectId, e.version) == Some(b);
    assert IsBest(db, e.projectId, e.version, b);
    assert Accepts(e.version, b.version);
  }

  lemma {:induction false} StepsAreReversed(db: Database, a: VersionRow, b: VersionRow, n: nat)
    requires a in db.versions && InSteps(Succ(db), a, b, n)
    ensures Reaches(Pred(db), KeyOf(db, b), KeyOf(db, a))
    decreases n
  {
    hide Pred, WellFormed, KeyOf, Reaches, Succ;
    if n == 0 {
      ReachesSelf(Pred(db), KeyOf(db, b));
    } else {
      var c :| c in Succ(db)(a) && InSteps(Succ(db), c, b, n - 1);
      SuccIsRow(db, a, c);
      StepsAreReversed(db, c, b, n - 1);
      EdgeIsReversed(db, a, c);
      ReachesEdge(Pred(db), KeyOf(db, c), KeyOf(db, a));
      ReachesTransitive(Pred(db), KeyOf(db, b), KeyOf(db, c), KeyOf(db, a));
    }
  }

  lemma SuccIsRow(db: Database, a: VersionRow, c: VersionRow)
    requires c in Succ(db)(a)
    ensures c in db.versions
  {
  }

  /** If a depends on b, however indirectly, then a is among the dependents that a walk with a
      cold cache gathers for b. */
  lemma ForwardIsFoundBackwards(db: Database, a: VersionRow, b: VersionRow, result: set<Package>)
    requires a in db.versions && b in db.versions && Reaches(Succ(db), a, b)
    requires IsOutcome(db, State({KeyOf(db, b)}, map[]), result)
    ensures KeyOf(db, a) in result
  {
    hide WellFormed, Pred, Succ, KeyOf, InSteps, IsOutcome;
    var n: nat :| InSteps(Succ(db), a, b, n);
    StepsAreReversed(db, a, b, n);
    assert ReachedFrom(Pred(db), {KeyOf(db, b)}, KeyOf(db, a));
    var cold: map<Package, set<Package>> := map[];
    assert cold.Keys == {};
    ColdCacheIsHarmless(db, cold.Keys, {KeyOf(db, b)});
    OutcomeIsBetween(db, {KeyOf(db, b)}, cold, result);
  }
}
