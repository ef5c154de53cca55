/** The memoized recursive walk that finds the dependencies of packages. */
module DependencyWalk {
  import opened Results
  import opened Graphs
  import opened Versions
  import opened PackagesDatabase
  import opened VersionLookup
  import opened DependencyGraph
  import opened EnteredPackages

  /** A package of the walk with the resolved edges recorded for it so far. */
  datatype Entry = Entry(data: PackageData, dbDependencies: map<string, PackageData>)

  type Entries = map<Package, Entry>

  // ----- what holds of the entries at every moment -----

  /** Each entry is filed under its own package and carries the id of that package's row. */
  ghost predicate AreRows(db: Database, m: Entries) {
    forall k | k in m ::
      m[k].data.pkg == k && exists row :: row in db.versions && KeyOf(db, row) == k && row.id == m[k].data.id
  }

  ghost predicate KnowsDependencies(m: Entries, e: Entry) {
    forall p | p in e.dbDependencies ::
      var d := e.dbDependencies[p]; d.pkg in m && m[d.pkg].data.id == d.id
  }

  /** Each recorded dependency is itself an entry, with the same id. */
  ghost predicate IsIdClosed(m: Entries) {
    forall k | k in m :: KnowsDependencies(m, m[k])
  }

  ghost predicate HasTrueData(db: Database, m: Entries) {
    forall k | k in m :: IsTrueData(db, m[k].data)
  }

  /** No edges are recorded yet, or all of them are. */
  ghost predicate HasAllOrNone(db: Database, e: Entry) {
    e.dbDependencies != map[] ==>
      exists row :: row in db.versions && KeyOf(db, row) == e.data.pkg && Records(db, row, e.dbDependencies)
  }

  ghost predicate HaveAllOrNone(db: Database, m: Entries) {
    forall k | k in m :: HasAllOrNone(db, m[k])
  }

  ghost predicate IsSound(db: Database, m: Entries) {
    AreRows(db, m) && IsIdClosed(m) && HasTrueData(db, m) && HaveAllOrNone(db, m)
  }

  /** The entry has the data of the dependency that led to it, or the mark of a request; and all of
      its edges if they were recorded, otherwise none. */
  ghost predicate IsMetAs(db: Database, entry: Entry, meeting: Meeting) {
    && (match meeting
        case Requested(_) => DIRECT_DEPENDENCY in entry.data.flags
        case MetBy(e, _) => Resolve(db, e.projectId, e.version).Some? && entry.data == DataOf(db, e))
    && if meeting.recorded then HasAll(db, entry) else entry.dbDependencies == map[]
  }

  ghost predicate HasAll(db: Database, e: Entry) {
    exists row :: row in db.versions && KeyOf(db, row) == e.data.pkg && Records(db, row, e.dbDependencies)
  }

  ghost predicate AreMetAs(db: Database, m: Entries, met: map<Package, Meeting>) {
    forall k | k in met :: k in m && IsMetAs(db, m[k], met[k])
  }

  // ----- how the entries grow -----

  ghost predicate ReachedKey(db: Database, from: VersionRow, k: Package) {
    exists r :: r in db.versions && KeyOf(db, r) == k && Reaches(Succ(db), from, r)
  }

  /** Some package behind the row has a dependency that no version answers. */
  ghost predicate DeadEdgeBehind(db: Database, row: VersionRow) {
    exists w :: Reaches(Succ(db), row, w) && HasDeadEdge(db, w)
  }

  /** The edges are recorded, or their walk has failed. */
  ghost predicate IsRecordedOrDead(db: Database, e: Entry) {
    exists row :: row in db.versions && KeyOf(db, row) == e.data.pkg
                  && (Records(db, row, e.dbDependencies) || DeadEdgeBehind(db, row))
  }

  ghost predicate AddedAreRecorded(db: Database, m: Entries, n: Entries) {
    forall k | k in n && k !in m :: IsRecordedOrDead(db, n[k])
  }

  /** From m to n: nothing changed, and everything added is reached and not marked direct. */
  ghost predicate Grown(db: Database, m: Entries, n: Entries, from: VersionRow) {
    && IsSound(db, n)
    && (forall k | k in m :: k in n && n[k] == m[k])
    && (forall k | k in n && k !in m :: ReachedKey(db, from, k) && DIRECT_DEPENDENCY !in n[k].data.flags)
    && AddedAreRecorded(db, m, n)
  }

  ghost predicate TargetsAreEntries(db: Database, m: Entries, row: VersionRow) {
    forall t | t in Targets(db, row) :: KeyOf(db, t) in m
  }

  ghost predicate LeadToEntries(db: Database, edges: seq<DependencyRow>, m: Entries) {
    forall e | e in edges :: Resolve(db, e.projectId, e.version).Some? && DataOf(db, e).pkg in m
  }

  /** The package's resolved edges are recorded and they all lead to entries. */
  ghost predicate IsComplete(db: Database, m: Entries, row: VersionRow) {
    && KeyOf(db, row) in m
    && Records(db, row, m[KeyOf(db, row)].dbDependencies)
    && TargetsAreEntries(db, m, row)
  }

  /** Everything that was added from m to n is complete. */
  ghost predicate AddedAreComplete(db: Database, m: Entries, n: Entries) {
    forall r | r in db.versions && KeyOf(db, r) in n && KeyOf(db, r) !in m :: IsComplete(db, n, r)
  }

  lemma GrownTwice(db: Database, m: Entries, n: Entries, o: Entries, from: VersionRow)
    requires Grown(db, m, n, from) && Grown(db, n, o, from)
    ensures Grown(db, m, o, from)
    ensures AddedAreComplete(db, m, n) && AddedAreComplete(db, n, o) ==> AddedAreComplete(db, m, o)
  {
    hide IsSound, ReachedKey, IsRecordedOrDead, Records, Targets, WellFormed;
  }

  lemma GrownBehindEdge(db: Database, m: Entries, n: Entries, row: VersionRow, target: VersionRow)
    requires Grown(db, m, n, target) && target in Targets(db, row)
    ensures Grown(db, m, n, row)
  {
    forall k | k in n && k !in m
      ensures ReachedKey(db, row, k)
    {
      var r :| r in db.versions && KeyOf(db, r) == k && Reaches(Succ(db), target, r);
      ReachesAfterEdge(Succ(db), row, target, r);
    }
  }

  ghost function Unvisited(db: Database, m: Entries): set<Package> {
    Universe(db) - m.Keys
  }

  lemma FewerUnvisited(db: Database, m: Entries, data: PackageData, row: VersionRow)
    requires row in db.versions && KeyOf(db, row) == data.pkg && data.pkg !in m
    ensures |Unvisited(db, m[data.pkg := Entry(data, map[])])| < |Unvisited(db, m)|
  {
    SmallerSubset(Unvisited(db, m[data.pkg := Entry(data, map[])]), Unvisited(db, m), data.pkg);
  }

  lemma NotMoreUnvisited(db: Database, m: Entries, n: Entries, from: VersionRow)
    requires Grown(db, m, n, from)
    ensures |Unvisited(db, n)| <= |Unvisited(db, m)| && IsSound(db, n)
  {
    hide IsSound, ReachedKey, Universe;
    var a, b := Unvisited(db, n), Unvisited(db, m);
    assert b == a + (b - a);
  }

  // ----- one edge -----

  /** A new entry, still without edges. */
  lemma EntryAdded(db: Database, m: Entries, data: PackageData, row: VersionRow)
    requires IsSound(db, m) && data.pkg !in m
    requires row in db.versions && data.pkg == KeyOf(db, row) && data.id == row.id
    requires IsTrueData(db, data)
    ensures IsSound(db, m[data.pkg := Entry(data, map[])])
  {
    var n := m[data.pkg := Entry(data, map[])];
    forall k | k in n
      ensures KnowsDependencies(n, n[k])
    {
      assert k in m ==> KnowsDependencies(m, m[k]);
    }
  }

  /** From m a package was added, then everything behind it; now its edges are recorded. */
  lemma RecordingGrows(db: Database, m: Entries, data: PackageData, n: Entries, row: VersionRow,
                       deps: map<string, PackageData>)
    requires data.pkg !in m && Grown(db, m[data.pkg := Entry(data, map[])], n, row)
    requires row in db.versions && data.pkg == KeyOf(db, row) && DIRECT_DEPENDENCY !in data.flags
    requires Records(db, row, deps) && TargetsAreEntries(db, n, row)
    ensures Grown(db, m, n[data.pkg := Entry(data, deps)], row)
  {
    hide Records, TargetsAreEntries, IsSound, ReachedKey, IsRecordedOrDead, WellFormed, KeyOf;
    hide HasAllOrNone;
    GrownIsSound(db, m[data.pkg := Entry(data, map[])], n, row);
    KnownFromRecords(db, n, row, deps);
    AllRecorded(db, data, row, deps);
    EdgesReplaced(db, n, data, deps);
    RowReachesItself(db, row);
  }

  lemma GrownIsSound(db: Database, m: Entries, n: Entries, from: VersionRow)
    requires Grown(db, m, n, from)
    ensures AreRows(db, n) && IsSound(db, n)
  {
  }

  lemma RowReachesItself(db: Database, row: VersionRow)
    requires row in db.versions
    ensures ReachedKey(db, row, KeyOf(db, row))
  {
    ReachesSelf(Succ(db), row);
  }

  lemma AllRecorded(db: Database, data: PackageData, row: VersionRow, deps: map<string, PackageData>)
    requires row in db.versions && data.pkg == KeyOf(db, row) && Records(db, row, deps)
    ensures HasAllOrNone(db, Entry(data, deps)) && IsRecordedOrDead(db, Entry(data, deps))
  {
  }

  lemma EdgesReplaced(db: Database, n: Entries, data: PackageData, deps: map<string, PackageData>)
    requires IsSound(db, n) && data.pkg in n && n[data.pkg].data == data
    requires KnowsDependencies(n, Entry(data, deps)) && HasAllOrNone(db, Entry(data, deps))
    ensures IsSound(db, n[data.pkg := Entry(data, deps)])
  {
    hide IsTrueData, HasAllOrNone, WellFormed, KeyOf;
    var o := n[data.pkg := Entry(data, deps)];
    forall k | k in o
      ensures KnowsDependencies(o, o[k])
    {
      assert KnowsDependencies(n, n[k]);
    }
  }

  lemma RecordingCompletes(db: Database, m: Entries, data: PackageData, n: Entries, row: VersionRow,
                           deps: map<string, PackageData>)
    requires row in db.versions && data.pkg == KeyOf(db, row)
    requires AddedAreComplete(db, m[data.pkg := Entry(data, map[])], n)
    requires Records(db, row, deps) && TargetsAreEntries(db, n, row)
    ensures AddedAreComplete(db, m, n[data.pkg := Entry(data, deps)])
  {
    var o := n[data.pkg := Entry(data, deps)];
    forall r | r in db.versions && KeyOf(db, r) in o && KeyOf(db, r) !in m
      ensures IsComplete(db, o, r)
    {
      if KeyOf(db, r) == data.pkg {
        KeyOfIsInjective(db, r, row);
      } else {
        assert IsComplete(db, n, r);
      }
    }
  }

  /** When all targets are entries, the recorded data names entries with the right ids. */
  lemma KnownFromRecords(db: Database, n: Entries, row: VersionRow, deps: map<string, PackageData>)
    requires AreRows(db, n)
    requires Records(db, row, deps) && TargetsAreEntries(db, n, row)
    ensures forall p | p in deps :: deps[p].pkg in n && n[deps[p].pkg].data.id == deps[p].id
  {
    forall p | p in deps
      ensures deps[p].pkg in n && n[deps[p].pkg].data.id == deps[p].id
    {
      var e :| e in EdgesOf(db, row.id) && PathOf(db, e.projectId) == p;
      var t := Resolve(db, e.projectId, e.version).value;
      assert t in Targets(db, row);
      var u :| u in db.versions && KeyOf(db, u) == KeyOf(db, t) && u.id == n[KeyOf(db, t)].data.id;
      KeyOfIsInjective(db, t, u);
    }
  }

  // ----- the walk -----

  class Walk {
    const db: Database
    var all: Entries

    constructor (db: Database)
      ensures this.db == db && all == map[]
    {
      this.db := db;
      all := map[];
    }

    /** Resolves one dependency; a package met for the first time is entered before its own
        dependencies are walked, and gets its edges afterwards. */
    method VisitDependency(e: DependencyRow, ghost row: VersionRow) returns (r: Result<PackageData, LookupError>)
      requires IsSound(db, all)
      requires row in db.versions && e in EdgesOf(db, row.id)
      modifies this`all
      ensures Grown(db, old(all), all, row)
      ensures r.Success? ==>
                && Resolve(db, e.projectId, e.version).Some? && r.value == DataOf(db, e)
                && r.value.pkg in all && AddedAreComplete(db, old(all), all)
      ensures r.Failure? ==> DeadEdgeBehind(db, row)
      ensures var o := EnterEdge(db, old(all).Keys, e);
              && all.Keys == o.entered && AreMetAs(db, all, o.met)
              && o.failure == if r.Success? then None else Some(r.error)
      decreases |Unvisited(db, all)|, 0
    {
      hide *;
      EdgeEntered(db, all.Keys, e);
      NothingMet(db, all, EnterEdge(db, all.Keys, e));
      var lookup := GetExactProjectVersionId(db, e.projectId, e.version, ProjectFlags(db, e.projectId) + e.flags);
      if lookup.Failure? {
        DeadEdgeHere(db, row, e);
        GrownNot(db, all, row);
        return Failure(lookup.error);
      }
      var data := PackageData(Package(PathOf(db, e.projectId), lookup.value.version.Key()),
                              lookup.value.id, lookup.value.flags, lookup.value.hash);
      ghost var target := Resolve(db, e.projectId, e.version).value;
      DataFromLookup(db, row, e);
      if data.pkg !in all {
        EntryAdded(db, all, data, target);
        all := all[data.pkg := Entry(data, map[])];
        FewerUnvisited(db, old(all), data, target);
        assert all.Keys == old(all).Keys + {data.pkg};
        var deps := GetProjectDependencies(data.id, target);
        if deps.Failure? {
          DeadEdgePassedOn(db, row, target);
          EntryStays(db, old(all), data, all, target);
          PackageMet(db, old(all), data, all, target, MetBy(e, false));
          MetByEdge(db, data, e);
          GrownBehindEdge(db, old(all), all, row, target);
          return Failure(deps.error);
        }
        RecordingGrows(db, old(all), data, all, target, deps.value);
        RecordingCompletes(db, old(all), data, all, target, deps.value);
        MetByEdge(db, data, e);
        RecordedAll(db, data, target, deps.value);
        PackageMet(db, old(all), data, all, target, MetBy(e, true));
        ghost var behind := EnterEdges(db, old(all).Keys + {data.pkg}, EdgesOf(db, target.id));
        all := all[data.pkg := Entry(data, deps.value)];
        assert AreMetAs(db, all, behind.met[data.pkg := MetBy(e, true)]);
        assert all.Keys == behind.entered;
        GrownBehindEdge(db, old(all), all, row, target);
      } else {
        GrownNot(db, all, row);
      }
      return Success(data);
    }

    method GetProjectDependencies(versionId: nat, ghost row: VersionRow)
      returns (r: Result<map<string, PackageData>, LookupError>)
      requires IsSound(db, all)
      requires row in db.versions && row.id == versionId
      modifies this`all
      ensures Grown(db, old(all), all, row)
      ensures r.Success? ==>
                && Records(db, row, r.value) && AddedAreComplete(db, old(all), all)
                && TargetsAreEntries(db, all, row)
      ensures r.Failure? ==> DeadEdgeBehind(db, row)
      ensures var o := EnterEdges(db, old(all).Keys, EdgesOf(db, versionId));
              && all.Keys == o.entered && AreMetAs(db, all, o.met)
              && o.failure == if r.Success? then None else Some(r.error)
      decreases |Unvisited(db, all)|, 1
    {
      hide *;
      var edges := EdgesOf(db, versionId);
      var dependencies: map<string, PackageData> := map[];
      GrownNot(db, all, row);
      ghost var met: map<Package, Meeting> := map[];
      NoEdges(db, all, edges);
      NothingMet(db, all, EnterEdges(db, all.Keys, edges));
      assert edges[0..] == edges;
      for i := 0 to |edges|
        invariant Grown(db, old(all), all, row) && AddedAreComplete(db, old(all), all)
        invariant RecordsEdges(db, edges[..i], dependencies)
        invariant LeadToEntries(db, edges[..i], all)
        invariant EnterEdges(db, old(all).Keys, edges) == After(met, EnterEdges(db, all.Keys, edges[i..]))
        invariant AreMetAs(db, all, met)
      {
        ghost var before := all;
        FirstEntered(db, all.Keys, edges[i..]);
        assert edges[i..][0] == edges[i] && edges[i..][1..] == edges[i + 1..];
        NotMoreUnvisited(db, old(all), all, row);
        assert edges[i] in edges;
        var data := VisitDependency(edges[i], row);
        GrownTwice(db, old(all), before, all, row);
        MetMore(db, before, all, row, met, EnterEdge(db, before.Keys, edges[i]).met);
        MetInTurn(met, EnterEdge(db, before.Keys, edges[i]), EnterEdges(db, all.Keys, edges[i + 1..]));
        met := met + EnterEdge(db, before.Keys, edges[i]).met;
        if data.Failure? {
          return Failure(data.error);
        }
        RecordOneMore(db, versionId, i, dependencies);
        OneMoreEntry(db, edges, i, before, all, row);
        DataFromLookup(db, row, edges[i]);
        dependencies := dependencies[data.value.pkg.path := data.value];
      }
      assert edges[..|edges|] == edges && edges[|edges|..] == [];
      NoneEntered(db, all.Keys);
      NothingAfter(met, all.Keys);
      AllTargetsAreEntries(db, all, row);
      return Success(dependencies);
    }
  }

  // ----- steps of the proof -----

  lemma EdgeEntered(db: Database, entered: set<Package>, e: DependencyRow)
    ensures Resolve(db, e.projectId, e.version).None? ==>
              EnterEdge(db, entered, e) == Outcome(entered, map[], Some(NoSuchVersion(e.version, e.projectId)))
    ensures Resolve(db, e.projectId, e.version).Some? ==>
              var row := Resolve(db, e.projectId, e.version).value;
              var behind := EnterEdges(db, entered + {KeyOf(db, row)}, EdgesOf(db, row.id));
              EnterEdge(db, entered, e) ==
                if KeyOf(db, row) in entered then Outcome(entered, map[], None)
                else Outcome(behind.entered, behind.met[KeyOf(db, row) := MetBy(e, behind.failure.None?)],
                             behind.failure)
  {
  }

  lemma FirstEntered(db: Database, entered: set<Package>, edges: seq<DependencyRow>)
    requires edges != []
    ensures var first := EnterEdge(db, entered, edges[0]);
            EnterEdges(db, entered, edges)
              == if first.failure.None? then After(first.met, EnterEdges(db, first.entered, edges[1..])) else first
  {
  }

  lemma NoneEntered(db: Database, entered: set<Package>)
    ensures EnterEdges(db, entered, []) == Outcome(entered, map[], None)
  {
  }

  lemma NothingMet(db: Database, m: Entries, o: Outcome<LookupError>)
    ensures AreMetAs(db, m, map[]) && After(map[], o) == o
  {
    assert map[] + o.met == o.met;
  }

  lemma NothingAfter(met: map<Package, Meeting>, entered: set<Package>)
    ensures After<LookupError>(met, Outcome(entered, map[], None)) == Outcome(entered, met, None)
  {
    assert met + map[] == met;
  }

  lemma MetInTurn(met: map<Package, Meeting>, first: Outcome<LookupError>, rest: Outcome<LookupError>)
    ensures After(met, After(first.met, rest)) == After(met + first.met, rest)
    ensures After(met, first) == Outcome(first.entered, met + first.met, first.failure)
  {
    assert met + (first.met + rest.met) == met + first.met + rest.met;
  }

  /** What was met before keeps its data while the entries grow. */
  lemma MetMore(db: Database, m: Entries, n: Entries, row: VersionRow, met: map<Package, Meeting>,
                more: map<Package, Meeting>)
    requires Grown(db, m, n, row) && AreMetAs(db, m, met) && AreMetAs(db, n, more)
    ensures AreMetAs(db, n, met + more)
  {
    hide IsSound, ReachedKey, AddedAreRecorded, IsMetAs;
  }

  /** How a package was met is known once its walk is over, besides how all behind it was. */
  lemma PackageMet(db: Database, m: Entries, data: PackageData, n: Entries, row: VersionRow, meeting: Meeting)
    requires Grown(db, m[data.pkg := Entry(data, map[])], n, row)
    ensures data.pkg in n && n[data.pkg] == Entry(data, map[])
    ensures forall met, deps | AreMetAs(db, n, met) && data.pkg !in met && IsMetAs(db, Entry(data, deps), meeting) ::
              AreMetAs(db, n[data.pkg := Entry(data, deps)], met[data.pkg := meeting])
    ensures n[data.pkg := Entry(data, map[])] == n
  {
    hide IsSound, ReachedKey, AddedAreRecorded, IsMetAs;
  }

  lemma MetByEdge(db: Database, data: PackageData, e: DependencyRow)
    requires Resolve(db, e.projectId, e.version).Some? && data == DataOf(db, e)
    ensures IsMetAs(db, Entry(data, map[]), MetBy(e, false))
    ensures forall deps | HasAll(db, Entry(data, deps)) :: IsMetAs(db, Entry(data, deps), MetBy(e, true))
  {
    hide HasAll, DataOf, Resolve;
  }

  lemma RecordedAll(db: Database, data: PackageData, row: VersionRow, deps: map<string, PackageData>)
    requires row in db.versions && data.pkg == KeyOf(db, row) && Records(db, row, deps)
    ensures HasAll(db, Entry(data, deps))
  {
  }

  lemma GrownNot(db: Database, m: Entries, row: VersionRow)
    requires IsSound(db, m)
    ensures Grown(db, m, m, row) && AddedAreComplete(db, m, m)
  {
  }

  lemma NoEdges(db: Database, m: Entries, edges: seq<DependencyRow>)
    ensures RecordsEdges(db, edges[..0], map[]) && LeadToEntries(db, edges[..0], m)
  {
  }

  lemma OneMoreEntry(db: Database, edges: seq<DependencyRow>, i: nat, m: Entries, n: Entries, row: VersionRow)
    requires i < |edges| && LeadToEntries(db, edges[..i], m) && Grown(db, m, n, row)
    requires Resolve(db, edges[i].projectId, edges[i].version).Some? && DataOf(db, edges[i]).pkg in n
    ensures LeadToEntries(db, edges[..i + 1], n)
  {
    hide DataOf, Resolve, IsSound, ReachedKey;
    assert edges[..i + 1] == edges[..i] + [edges[i]];
  }

  lemma AllTargetsAreEntries(db: Database, m: Entries, row: VersionRow)
    requires LeadToEntries(db, EdgesOf(db, row.id), m)
    ensures TargetsAreEntries(db, m, row)
    ensures forall deps :: RecordsEdges(db, EdgesOf(db, row.id), deps) ==> Records(db, row, deps)
  {
  }

  lemma DeadEdgeHere(db: Database, row: VersionRow, e: DependencyRow)
    requires e in EdgesOf(db, row.id) && Resolve(db, e.projectId, e.version).None?
    ensures DeadEdgeBehind(db, row)
  {
    ReachesSelf(Succ(db), row);
  }

  lemma DeadEdgePassedOn(db: Database, row: VersionRow, target: VersionRow)
    requires target in Targets(db, row) && DeadEdgeBehind(db, target)
    ensures DeadEdgeBehind(db, row)
  {
    var w :| Reaches(Succ(db), target, w) && HasDeadEdge(db, w);
    ReachesAfterEdge(Succ(db), row, target, w);
  }

  /** An entry whose walk failed stays behind without edges. */
  lemma EntryStays(db: Database, m: Entries, data: PackageData, n: Entries, row: VersionRow)
    requires data.pkg !in m && row in db.versions && data.pkg == KeyOf(db, row)
    requires DIRECT_DEPENDENCY !in data.flags
    requires Grown(db, m[data.pkg := Entry(data, map[])], n, row) && DeadEdgeBehind(db, row)
    ensures Grown(db, m, n, row)
  {
    hide IsSound, DeadEdgeBehind, Records, WellFormed, KeyOf;
    ReachesSelf(Succ(db), row);
  }
}
