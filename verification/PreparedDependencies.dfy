/** Turning the ids of dependencies into the dependencies themselves. */
module PreparedDependencies {
  import opened Results
  import opened Graphs
  import opened PackagesDatabase
  import opened DependencyGraph
  import opened EnteredPackages
  import opened DependencyWalk
  import opened DependencySearch

  datatype PrepareError = CannotFindDepById(id: nat)

  /** A package ready for download, with its dependencies by package. */
  datatype Prepared = Prepared(data: PackageData, dependencies: map<Package, PackageData>)

  class DownloadDependency {
    const data: PackageData
    const idDependencies: set<nat>
    var dependencies: map<Package, PackageData>

    constructor (found: Found)
      ensures data == found.data && idDependencies == found.idDependencies && dependencies == map[]
    {
      data, idDependencies := found.data, found.idDependencies;
      dependencies := map[];
    }

    /** Each id is looked up; in the end the package itself is taken out again. */
    method PrepareDependencies(dd: map<nat, Found>) returns (r: Result<(), PrepareError>)
      modifies this`dependencies
      ensures r.Success? <==> idDependencies <= dd.Keys
      ensures r.Success? ==> dependencies.Keys == old(dependencies).Keys + PackagesOf(dd, idDependencies) - {data.pkg}
      ensures r.Success? ==> forall k | k in dependencies ::
                || (k in old(dependencies) && dependencies[k] == old(dependencies)[k])
                || IsOneOf(dd, idDependencies, dependencies[k], k)
    {
      var todo := idDependencies;
      while todo != {}
        invariant todo <= idDependencies && idDependencies - todo <= dd.Keys
        invariant dependencies.Keys == old(dependencies).Keys + PackagesOf(dd, idDependencies - todo)
        invariant forall k | k in dependencies ::
                    (k in old(dependencies) && dependencies[k] == old(dependencies)[k])
                    || IsOneOf(dd, idDependencies, dependencies[k], k)
        decreases |todo|
      {
        var id :| id in todo;
        if id !in dd {
          return Failure(CannotFindDepById(id));
        }
        ghost var before := todo;
        var dep := dd[id].data;
        dependencies := dependencies[dep.pkg := dep];
        todo := todo - {id};
        assert idDependencies - todo == idDependencies - before + {id};
      }
      assert idDependencies - todo == idDependencies;
      dependencies := dependencies - {data.pkg};
      return Success(());
    }
  }

  function PackagesOf(dd: map<nat, Found>, ids: set<nat>): set<Package> {
    set id | id in ids && id in dd :: dd[id].data.pkg
  }

  predicate IsOneOf(dd: map<nat, Found>, ids: set<nat>, data: PackageData, k: Package) {
    exists id :: id in ids && id in dd && dd[id].data == data && data.pkg == k
  }

  /** Each package is prepared from its own copy of the entry. */
  method PrepareIdDependencies(idDeps: map<nat, Found>) returns (r: Result<map<Package, Prepared>, PrepareError>)
    ensures r.Success? <==> forall id | id in idDeps :: idDeps[id].idDependencies <= idDeps.Keys
    ensures r.Success? ==> r.value.Keys == PackagesOf(idDeps, idDeps.Keys)
    ensures r.Success? ==> forall k | k in r.value :: exists id :: id in idDeps && IsPrepared(idDeps, id, k, r.value[k])
  {
    var dependencies: map<Package, Prepared> := map[];
    var todo := idDeps.Keys;
    while todo != {}
      invariant todo <= idDeps.Keys
      invariant forall id | id in idDeps && id !in todo :: idDeps[id].idDependencies <= idDeps.Keys
      invariant dependencies.Keys == PackagesOf(idDeps, idDeps.Keys - todo)
      invariant forall k | k in dependencies :: exists id :: id in idDeps && IsPrepared(idDeps, id, k, dependencies[k])
      decreases |todo|
    {
      var id :| id in todo;
      var d := new DownloadDependency(idDeps[id]);
      var prepared := d.PrepareDependencies(idDeps);
      if prepared.Failure? {
        return Failure(prepared.error);
      }
      assert IsPrepared(idDeps, id, d.data.pkg, Prepared(d.data, d.dependencies));
      ghost var before := todo;
      dependencies := dependencies[d.data.pkg := Prepared(d.data, d.dependencies)];
      todo := todo - {id};
      assert idDeps.Keys - todo == idDeps.Keys - before + {id};
    }
    assert idDeps.Keys - todo == idDeps.Keys;
    return Success(dependencies);
  }

  /** p is the preparation of the entry with this id: its dependencies but itself. */
  predicate IsPrepared(idDeps: map<nat, Found>, id: nat, k: Package, p: Prepared)
    requires id in idDeps
  {
    && idDeps[id].data.pkg == k && p.data == idDeps[id].data
    && p.dependencies.Keys == PackagesOf(idDeps, idDeps[id].idDependencies) - {k}
    && forall l | l in p.dependencies :: IsOneOf(idDeps, idDeps[id].idDependencies, p.dependencies[l], l)
  }

  /** Finding and preparing. Only the finding can fail, for after it no id is missing. Without dead
      edges the outcome is the reached part of the dependency graph, self-dependencies left out. */
  method GetDependenciesFromDb(db: Database, requests: seq<Request>)
    returns (r: Result<map<Package, Prepared>, FindError>)
    ensures (forall q | q in requests :: IsServed(db, q)) ==> r.Success?
    ensures EnterRequests(db, {}, requests).failure == if r.Success? then None else Some(r.error)
    ensures r.Success? ==> IsPreparedWalk(db, r.value, Roots(db, requests))
    ensures r.Success? ==> HasPrepared(db, r.value, EnterRequests(db, {}, requests).entered)
    ensures r.Success? ==> ArePreparedMet(db, r.value, EnterRequests(db, {}, requests).met)
    ensures r.Success? ==> IsMetByPrepared(db, r.value)
    ensures r.Success? && !SomeDead(db, Roots(db, requests)) ==>
              IsReachedGraph(db, r.value, Roots(db, requests))
    ensures (forall q | q in requests :: !NamesRoot(db, q)) ==>
              && (r.Success? <==> forall q | q in requests :: IsServed(db, q))
              && (r.Success? ==> IsReachedGraph(db, r.value, Roots(db, requests)))
  {
    hide *;
    var found := FindDependencies(db, requests);
    if found.Failure? {
      return Failure(found.error);
    }
    var prepared := PrepareIdDependencies(found.value);
    EveryIdIsFound(db, found.value);
    if prepared.Failure? {
      assert false;
    }
    ArePrepared(found.value, prepared.value);
    RootsAreRows(db, requests);
    PreparedIsWalk(db, found.value, prepared.value, Roots(db, requests));
    PreparedIsEntered(db, found.value, prepared.value, EnterRequests(db, {}, requests).entered);
    PreparedIsMet(db, found.value, prepared.value, EnterRequests(db, {}, requests).met);
    if IsExact(db, found.value, Roots(db, requests)) {
      PreparedIsGraph(db, found.value, prepared.value, Roots(db, requests));
    }
    return Success(prepared.value);
  }

  lemma EveryIdIsFound(db: Database, m: map<nat, Found>)
    requires NamesRows(db, m) && HasDependencies(m)
    ensures forall id | id in m :: m[id].idDependencies <= m.Keys
  {
    forall id, d | id in m && d in m[id].idDependencies
      ensures d in m
    {
      var p :| p in m[id].dbDependencies && m[id].dbDependencies[p].id == d;
    }
  }

  ghost function TargetKeys(db: Database, row: VersionRow): set<Package> {
    set t | t in Targets(db, row) :: KeyOf(db, t)
  }

  ghost predicate IsReachedGraph(db: Database, m: map<Package, Prepared>, roots: set<VersionRow>) {
    forall row | row in db.versions ::
      && (KeyOf(db, row) in m <==> ReachedFrom(Succ(db), roots, row))
      && (KeyOf(db, row) in m ==>
            && m[KeyOf(db, row)].data.id == row.id && IsTrueData(db, m[KeyOf(db, row)].data)
            && m[KeyOf(db, row)].dependencies.Keys == TargetKeys(db, row) - {KeyOf(db, row)})
  }

  ghost predicate HasPrepared(db: Database, m: map<Package, Prepared>, entered: set<Package>) {
    forall row | row in db.versions :: KeyOf(db, row) in m <==> KeyOf(db, row) in entered
  }

  /** The outcome of any success: every root is there, and every package is that of a reached row. */
  ghost predicate IsPreparedWalk(db: Database, m: map<Package, Prepared>, roots: set<VersionRow>) {
    && (forall row | row in roots :: KeyOf(db, row) in m)
    && forall row | row in db.versions && KeyOf(db, row) in m ::
         && ReachedFrom(Succ(db), roots, row)
         && IsPreparedRow(db, m, row)
         && (DIRECT_DEPENDENCY in m[KeyOf(db, row)].data.flags <==> row in roots)
  }

  /** The package has its resolved dependencies but itself, each of them with the data it has in
      the outcome; or it has none, and then the walk behind it has failed. */
  ghost predicate IsPreparedRow(db: Database, m: map<Package, Prepared>, row: VersionRow)
    requires KeyOf(db, row) in m
  {
    var p := m[KeyOf(db, row)];
    && p.data.pkg == KeyOf(db, row) && p.data.id == row.id && IsTrueData(db, p.data)
    && (|| p.dependencies.Keys == TargetKeys(db, row) - {KeyOf(db, row)}
        || (p.dependencies == map[] && DeadEdgeBehind(db, row)))
    && forall k | k in p.dependencies :: k in m && p.dependencies[k] == m[k].data
  }

  /** The entry with a row's id is that row's package. */
  lemma FoundRow(db: Database, m: map<nat, Found>, row: VersionRow)
    requires NamesRows(db, m) && row in db.versions
    ensures row.id in m ==> m[row.id].data.pkg == KeyOf(db, row)
    ensures KeyOf(db, row) in PackagesOf(m, m.Keys) <==> row.id in m
  {
    if row.id in m {
      var r :| r in db.versions && r.id == row.id && KeyOf(db, r) == m[row.id].data.pkg;
      assert SameVersion(r, row);
    }
    if KeyOf(db, row) in PackagesOf(m, m.Keys) {
      var id :| id in m && m[id].data.pkg == KeyOf(db, row);
      var r :| r in db.versions && r.id == id && KeyOf(db, r) == m[id].data.pkg;
      KeyOfIsInjective(db, r, row);
    }
  }

  /** The packages are those of the results, each prepared from the result with its id. */
  ghost predicate IsPreparation(m: map<nat, Found>, p: map<Package, Prepared>) {
    && p.Keys == PackagesOf(m, m.Keys)
    && forall k | k in p :: exists id :: id in m && IsPrepared(m, id, k, p[k])
  }

  lemma ArePrepared(m: map<nat, Found>, p: map<Package, Prepared>)
    requires p.Keys == PackagesOf(m, m.Keys)
    requires forall k | k in p :: exists id :: id in m && IsPrepared(m, id, k, p[k])
    ensures IsPreparation(m, p)
  {
  }

  lemma RootsAreRows(db: Database, requests: seq<Request>)
    ensures forall row | row in Roots(db, requests) :: row in db.versions
  {
  }

  lemma PreparedIsEntered(db: Database, m: map<nat, Found>, p: map<Package, Prepared>, entered: set<Package>)
    requires NamesRows(db, m) && HasEntered(db, m, entered) && IsPreparation(m, p)
    ensures HasPrepared(db, p, entered)
  {
    hide NamesRows, PackagesOf, IsPrepared, WellFormed, KeyOf;
    forall row | row in db.versions
      ensures KeyOf(db, row) in p <==> KeyOf(db, row) in entered
    {
      FoundRow(db, m, row);
    }
  }

  /** Each package is as it was met; it has its resolved dependencies but itself if its walk came to
      its end, otherwise none. */
  ghost predicate ArePreparedMet(db: Database, m: map<Package, Prepared>, met: map<Package, Meeting>) {
    forall row | row in db.versions && KeyOf(db, row) in m ::
      KeyOf(db, row) in met && IsPreparedMet(db, row, m[KeyOf(db, row)], met[KeyOf(db, row)])
  }

  ghost predicate IsPreparedMet(db: Database, row: VersionRow, p: Prepared, meeting: Meeting) {
    && IsDataMet(db, row, p.data, meeting)
    && p.dependencies.Keys == if meeting.recorded then TargetKeys(db, row) - {KeyOf(db, row)} else {}
  }

  /** What was not requested is a dependency of another package of the outcome. */
  ghost predicate IsMetByPrepared(db: Database, m: map<Package, Prepared>) {
    forall row | row in db.versions && KeyOf(db, row) in m && DIRECT_DEPENDENCY !in m[KeyOf(db, row)].data.flags ::
      exists owner, e :: owner in db.versions && KeyOf(db, owner) in m && e in EdgesOf(db, owner.id)
                         && IsDataBy(db, e, row, m[KeyOf(db, row)].data)
  }

  lemma PreparedIsMet(db: Database, m: map<nat, Found>, p: map<Package, Prepared>, met: map<Package, Meeting>)
    requires NamesRows(db, m) && HasTrueResults(db, m) && HasDependencies(m) && IsPreparation(m, p)
    requires AreResultsMet(db, m, met) && IsMetByResults(db, m)
    ensures ArePreparedMet(db, p, met) && IsMetByPrepared(db, p)
  {
    hide NamesRows, HasTrueResults, HasDependencies, PackagesOf, IsPrepared, WellFormed, KeyOf, IsDataBy, EdgesOf;
    hide IsTrueData, IsPreparedMet, IsResultMet;
    forall row | row in db.versions
      ensures KeyOf(db, row) in p <==> row.id in m
      ensures KeyOf(db, row) in p ==> p[KeyOf(db, row)].data == m[row.id].data
      ensures KeyOf(db, row) in p ==> IsPreparedMet(db, row, p[KeyOf(db, row)], met[KeyOf(db, row)])
    {
      FoundRow(db, m, row);
      if KeyOf(db, row) in p {
        PreparedFrom(db, m, p, row);
        PreparedRowMet(db, m, p, row, met[KeyOf(db, row)]);
      }
    }
  }

  lemma PreparedRowMet(db: Database, m: map<nat, Found>, p: map<Package, Prepared>, row: VersionRow, meeting: Meeting)
    requires NamesRows(db, m) && HasTrueResults(db, m) && HasDependencies(m) && IsPreparation(m, p)
    requires row in db.versions && KeyOf(db, row) in p && row.id in m && IsResultMet(db, row, m[row.id], meeting)
    ensures IsPreparedMet(db, row, p[KeyOf(db, row)], meeting)
  {
    hide HasTrueResults, HasDependencies, WellFormed, KeyOf, IsDataBy, TargetKeys, Records, IsPreparation;
    PreparedFrom(db, m, p, row);
    EveryIdIsFound(db, m);
    if meeting.recorded {
      PackagesOfRecord(db, m, row);
    }
  }

  lemma PreparedIsWalk(db: Database, m: map<nat, Found>, p: map<Package, Prepared>, roots: set<VersionRow>)
    requires NamesRows(db, m) && HasTrueResults(db, m) && HasDependencies(m) && HasAllEdgesOrNone(db, m)
    requires IsMarked(db, m, roots) && IsReached(db, m, roots) && IsPreparation(m, p)
    requires forall row | row in roots :: row in db.versions
    ensures IsPreparedWalk(db, p, roots)
  {
    hide NamesRows, HasTrueResults, HasDependencies, HasAllEdgesOrNone, PackagesOf, IsPrepared, WellFormed, KeyOf;
    hide ReachedFrom, IsPreparedRow;
    forall row | row in db.versions
      ensures KeyOf(db, row) in p <==> row.id in m
      ensures KeyOf(db, row) in p ==> IsPreparedRow(db, p, row) && p[KeyOf(db, row)].data == m[row.id].data
    {
      FoundRow(db, m, row);
      if KeyOf(db, row) in p {
        PreparedRow(db, m, p, row);
      }
    }
  }

  lemma PreparedRow(db: Database, m: map<nat, Found>, p: map<Package, Prepared>, row: VersionRow)
    requires NamesRows(db, m) && HasTrueResults(db, m) && HasDependencies(m) && HasAllEdgesOrNone(db, m)
    requires IsPreparation(m, p) && row in db.versions && KeyOf(db, row) in p
    ensures IsPreparedRow(db, p, row) && row.id in m && p[KeyOf(db, row)].data == m[row.id].data
  {
    hide *;
    PreparedFrom(db, m, p, row);
    EveryIdIsFound(db, m);
    PreparedKeys(db, m, row);
    forall k | k in p[KeyOf(db, row)].dependencies
      ensures k in p && p[KeyOf(db, row)].dependencies[k] == p[k].data
    {
      PreparedDependency(db, m, p, row, k);
    }
    PreparedRowAssembled(db, p, row);
  }

  lemma PreparedRowAssembled(db: Database, m: map<Package, Prepared>, row: VersionRow)
    requires KeyOf(db, row) in m
    requires var p := m[KeyOf(db, row)];
             && p.data.pkg == KeyOf(db, row) && p.data.id == row.id && IsTrueData(db, p.data)
             && (|| p.dependencies.Keys == TargetKeys(db, row) - {KeyOf(db, row)}
                 || (p.dependencies.Keys == {} && DeadEdgeBehind(db, row)))
             && forall k | k in p.dependencies :: k in m && p.dependencies[k] == m[k].data
    ensures IsPreparedRow(db, m, row)
  {
    hide WellFormed, KeyOf, TargetKeys, DeadEdgeBehind, IsTrueData;
    var d := m[KeyOf(db, row)].dependencies;
    if d.Keys == {} {
      assert d == map[];
    }
  }

  /** The preparation of a row is made from the result with its id. */
  lemma PreparedFrom(db: Database, m: map<nat, Found>, p: map<Package, Prepared>, row: VersionRow)
    requires NamesRows(db, m) && HasTrueResults(db, m) && IsPreparation(m, p)
    requires row in db.versions && KeyOf(db, row) in p
    ensures row.id in m && IsPrepared(m, row.id, KeyOf(db, row), p[KeyOf(db, row)])
    ensures p[KeyOf(db, row)].data == m[row.id].data && m[row.id].data.pkg == KeyOf(db, row)
    ensures p[KeyOf(db, row)].data.id == row.id && IsTrueData(db, p[KeyOf(db, row)].data)
    ensures p[KeyOf(db, row)].dependencies.Keys == PackagesOf(m, m[row.id].idDependencies) - {KeyOf(db, row)}
  {
    hide NamesRows, HasTrueResults, WellFormed, KeyOf, PackagesOf, IsOneOf, IsTrueData;
    var id :| id in m && IsPrepared(m, id, KeyOf(db, row), p[KeyOf(db, row)]);
    PreparedId(db, m, row, id, p[KeyOf(db, row)]);
  }

  /** The packages of the recorded ids are the targets, or there are none. */
  lemma PreparedKeys(db: Database, m: map<nat, Found>, row: VersionRow)
    requires NamesRows(db, m) && HasAllEdgesOrNone(db, m) && row in db.versions && row.id in m
    requires m[row.id].idDependencies <= m.Keys
    ensures PackagesOf(m, m[row.id].idDependencies) == TargetKeys(db, row)
            || (PackagesOf(m, m[row.id].idDependencies) == {} && DeadEdgeBehind(db, row))
  {
    hide WellFormed, KeyOf, Records, DeadEdgeBehind;
    if Records(db, row, m[row.id].dbDependencies) {
      PackagesOfRecord(db, m, row);
    }
  }

  lemma PreparedDependency(db: Database, m: map<nat, Found>, p: map<Package, Prepared>, row: VersionRow, k: Package)
    requires NamesRows(db, m) && IsPreparation(m, p) && row in db.versions && row.id in m && KeyOf(db, row) in p
    requires IsPrepared(m, row.id, KeyOf(db, row), p[KeyOf(db, row)]) && k in p[KeyOf(db, row)].dependencies
    ensures k in p && p[KeyOf(db, row)].dependencies[k] == p[k].data
  {
    hide WellFormed, KeyOf, HasDependencies;
    var id :| id in m && m[id].data == p[KeyOf(db, row)].dependencies[k] && m[id].data.pkg == k;
    assert k in PackagesOf(m, m.Keys);
    var from :| from in m && IsPrepared(m, from, k, p[k]);
    ResultsDiffer(db, m, id, from);
  }

  lemma ResultsDiffer(db: Database, m: map<nat, Found>, id: nat, other: nat)
    requires NamesRows(db, m) && id in m && other in m && m[id].data.pkg == m[other].data.pkg
    ensures id == other
  {
    var r :| r in db.versions && r.id == id && KeyOf(db, r) == m[id].data.pkg;
    var s :| s in db.versions && s.id == other && KeyOf(db, s) == m[other].data.pkg;
    KeyOfIsInjective(db, r, s);
  }

  lemma PreparedIsGraph(db: Database, m: map<nat, Found>, p: map<Package, Prepared>, roots: set<VersionRow>)
    requires NamesRows(db, m) && HasTrueResults(db, m) && IsExact(db, m, roots) && IsPreparation(m, p)
    ensures IsReachedGraph(db, p, roots)
  {
    hide NamesRows, HasTrueResults, WellFormed, Records, PackagesOf, TargetKeys, KeyOf;
    hide ReachedFrom, IsPrepared, IsTrueData;
    forall row | row in db.versions
      ensures KeyOf(db, row) in p <==> ReachedFrom(Succ(db), roots, row)
      ensures KeyOf(db, row) in p ==>
                && p[KeyOf(db, row)].data.id == row.id && IsTrueData(db, p[KeyOf(db, row)].data)
                && p[KeyOf(db, row)].dependencies.Keys == TargetKeys(db, row) - {KeyOf(db, row)}
    {
      FoundRow(db, m, row);
      if KeyOf(db, row) in p {
        PreparedFrom(db, m, p, row);
        PackagesOfTargets(db, m, row, roots);
      }
    }
  }

  lemma PreparedId(db: Database, m: map<nat, Found>, row: VersionRow, id: nat, p: Prepared)
    requires NamesRows(db, m) && HasTrueResults(db, m)
    requires row in db.versions && id in m && IsPrepared(m, id, KeyOf(db, row), p)
    ensures p.data.id == row.id && IsTrueData(db, p.data)
    ensures id == row.id && p.dependencies.Keys == PackagesOf(m, m[row.id].idDependencies) - {KeyOf(db, row)}
  {
    var r :| r in db.versions && r.id == id && KeyOf(db, r) == m[id].data.pkg;
    KeyOfIsInjective(db, r, row);
  }

  /** All recorded ids being results, their packages are those the edges lead to. */
  lemma PackagesOfRecord(db: Database, m: map<nat, Found>, row: VersionRow)
    requires NamesRows(db, m) && row in db.versions && row.id in m && m[row.id].idDependencies <= m.Keys
    requires Records(db, row, m[row.id].dbDependencies)
    ensures PackagesOf(m, m[row.id].idDependencies) == TargetKeys(db, row)
  {
    hide WellFormed, KeyOf, Records;
    RecordedIdsAreTargets(db, row, m[row.id].dbDependencies);
    TargetsAreRows(db, row);
    forall t | t in Targets(db, row)
      ensures t.id in m && m[t.id].data.pkg == KeyOf(db, t)
    {
      FoundRow(db, m, t);
    }
  }

  lemma PackagesOfTargets(db: Database, m: map<nat, Found>, row: VersionRow, roots: set<VersionRow>)
    requires NamesRows(db, m) && row in db.versions && row.id in m
    requires IsExact(db, m, roots)
    ensures PackagesOf(m, m[row.id].idDependencies) == TargetKeys(db, row)
  {
    hide WellFormed, KeyOf, Records, ReachedFrom, PackagesOf, TargetKeys;
    RecordedIdsAreTargets(db, row, m[row.id].dbDependencies);
    TargetsAreRows(db, row);
    forall t | t in Targets(db, row)
      ensures t.id in m
    {
      EdgeStaysReached(db, roots, row, t);
    }
    PackagesOfRecord(db, m, row);
  }

  lemma EdgeStaysReached(db: Database, roots: set<VersionRow>, row: VersionRow, t: VersionRow)
    requires ReachedFrom(Succ(db), roots, row) && t in Targets(db, row)
    ensures ReachedFrom(Succ(db), roots, t)
  {
    var a :| a in roots && Reaches(Succ(db), a, row);
    ReachesEdge(Succ(db), row, t);
    ReachesTransitive(Succ(db), a, row, t);
  }
}
