/** Finding the dependencies of all requested packages, and handing them out by id. */
module DependencySearch {
  import opened Results
  import opened Graphs
  import opened LikePattern
  import opened Versions
  import opened PackagesDatabase
  import opened VersionLookup
  import opened DependencyGraph
  import opened EnteredPackages
  import opened DependencyWalk

  /** A requested package; isLocal is the flag of packages that do not come from the database. */
  datatype Request = Request(path: string, version: Version, isLocal: bool)

  datatype FindError = PackageNotFound(path: string) | RootProjectEmpty(path: string) | NoVersion(cause: LookupError)

  /** A package of the result; the ids are those of its dependencies. */
  datatype Found = Found(data: PackageData, dbDependencies: map<string, PackageData>, idDependencies: set<nat>)

  // ----- what the requests ask for -----

  /** select ... where path = path; the callback keeps the last row. */
  function FindPath(projects: seq<ProjectRow>, path: string): (r: Option<ProjectRow>)
    ensures r.Some? ==> r.value in projects && r.value.path == path
    ensures r.None? ==> forall p | p in projects :: p.path != path
  {
    var rows := Select(projects, (p: ProjectRow) => p.path == path);
    if rows == [] then None
    else
      var last := rows[|rows| - 1];
      assert last in rows;
      Some(last)
  }

  /** select ... where path like 'root.%' and type_id in ('1', '2') */
  function Children(db: Database, root: string): (r: seq<ProjectRow>)
    ensures forall p :: p in r <==>
              && p in db.projects && Like(ChildPattern(root), p.path)
              && (p.kind.Library? || p.kind.Executable?)
  {
    Select(db.projects, (p: ProjectRow) => Like(ChildPattern(root), p.path) && (p.kind.Library? || p.kind.Executable?))
  }

  /** A root project stands for its children, any other project for itself. */
  function Wanted(db: Database, q: Request): seq<ProjectRow> {
    match FindPath(db.projects, q.path)
    case None => []
    case Some(p) => if p.kind.RootProject? then Children(db, q.path) else [p]
  }

  /** The request names a root project: a failure behind one of its children is passed over. */
  predicate NamesRoot(db: Database, q: Request) {
    var project := FindPath(db.projects, q.path);
    !q.isLocal && project.Some? && project.value.kind.RootProject?
  }

  ghost function Resolved(db: Database, projects: seq<ProjectRow>, version: Version): set<VersionRow> {
    set p | p in projects && Resolve(db, p.id, version).Some? :: Resolve(db, p.id, version).value
  }

  ghost function RequestRoots(db: Database, q: Request): set<VersionRow> {
    if q.isLocal then {} else Resolved(db, Wanted(db, q), q.version)
  }

  /** The rows that the requests resolve to. */
  ghost function Roots(db: Database, requests: seq<Request>): set<VersionRow> {
    set q, row | q in requests && row in RequestRoots(db, q) :: row
  }

  ghost predicate Resolves(db: Database, p: ProjectRow, version: Version) {
    Resolve(db, p.id, version).Some? && !DeadEdgeBehind(db, Resolve(db, p.id, version).value)
  }

  /** The request certainly succeeds: its project, or for a root project one of the children,
      has a version that answers it and behind which every dependency has one. */
  ghost predicate IsServed(db: Database, q: Request) {
    q.isLocal || exists p :: p in Wanted(db, q) && Resolves(db, p, q.version)
  }

  /** The request has at least one version to offer. */
  ghost predicate IsAnswered(db: Database, q: Request) {
    q.isLocal || exists p :: p in Wanted(db, q) && Resolve(db, p.id, q.version).Some?
  }

  // ----- what the requests enter -----

  /** Every child is walked; one that does not fail is enough. */
  ghost function EnterChildren(db: Database, entered: set<Package>, projects: seq<ProjectRow>,
                               version: Version): (r: Outcome<()>)
    ensures entered <= r.entered
    decreases |projects|
  {
    if projects == [] then Outcome(entered, map[], Some(()))
    else
      var first := EnterProject(db, entered, projects[0].id, version);
      var rest := EnterChildren(db, first.entered, projects[1..], version);
      AfterChildren(first.met, first.Succeeds(), rest)
  }

  /** What earlier children have met, and whether one of them did not fail, is added. */
  ghost function AfterChildren(met: map<Package, Meeting>, succeeded: bool, rest: Outcome<()>): Outcome<()> {
    Outcome(rest.entered, met + rest.met, if succeeded then None else rest.failure)
  }

  ghost function EnterRequest(db: Database, entered: set<Package>, q: Request): (r: Outcome<FindError>)
    ensures entered <= r.entered
  {
    var project := FindPath(db.projects, q.path);
    if q.isLocal then Outcome(entered, map[], None)
    else if project.None? then Outcome(entered, map[], Some(PackageNotFound(q.path)))
    else if project.value.kind.RootProject? then
      var o := EnterChildren(db, entered, Children(db, q.path), q.version);
      Outcome(o.entered, o.met, ChildrenFailure(db, q, project.value, o))
    else
      var o := EnterProject(db, entered, project.value.id, q.version);
      Outcome(o.entered, o.met, if o.failure.None? then None else Some(NoVersion(o.failure.value)))
  }

  ghost function ChildrenFailure(db: Database, q: Request, root: ProjectRow, o: Outcome<()>): Option<FindError> {
    if Children(db, q.path) == [] then Some(RootProjectEmpty(q.path))
    else if o.Succeeds() then None
    else Some(NoVersion(NoSuchVersion(q.version, root.id)))
  }

  /** One request after the other, up to the first that fails. */
  ghost function EnterRequests(db: Database, entered: set<Package>, requests: seq<Request>): (r: Outcome<FindError>)
    ensures entered <= r.entered
    decreases |requests|
  {
    if requests == [] then Outcome(entered, map[], None)
    else
      var first := EnterRequest(db, entered, requests[0]);
      if !first.Succeeds() then first else After(first.met, EnterRequests(db, first.entered, requests[1..]))
  }

  /** The child at j is walked with what the children before it have entered, and does not fail. */
  ghost predicate ChildSucceeds(db: Database, entered: set<Package>, projects: seq<ProjectRow>, version: Version,
                                j: nat)
    requires j < |projects|
  {
    EnterProject(db, EnterChildren(db, entered, projects[..j], version).entered, projects[j].id, version).Succeeds()
  }

  /** With ProjectSucceedsIff this says when a request for a root project succeeds: some child has
      a version, behind which nothing fails but what an earlier child has entered. */
  lemma {:induction false} ChildrenSucceedIff(db: Database, entered: set<Package>, projects: seq<ProjectRow>,
                                              version: Version)
    ensures EnterChildren(db, entered, projects, version).Succeeds()
       <==> exists j :: 0 <= j < |projects| && ChildSucceeds(db, entered, projects, version, j)
    decreases |projects|
  {
    hide EnterProject;
    if projects != [] {
      var first, rest := EnterProject(db, entered, projects[0].id, version), projects[1..];
      ChildrenSucceedIff(db, first.entered, rest, version);
      assert ChildSucceeds(db, entered, projects, version, 0) <==> first.Succeeds();
      forall j | 0 <= j < |rest|
        ensures ChildSucceeds(db, entered, projects, version, j + 1)
           <==> ChildSucceeds(db, first.entered, rest, version, j)
      {
        assert projects[..j + 1][0] == projects[0] && projects[..j + 1][1..] == rest[..j];
      }
      if j :| 0 < j < |projects| && ChildSucceeds(db, entered, projects, version, j) {
        assert ChildSucceeds(db, first.entered, rest, version, j - 1);
      }
    }
  }

  // ----- what holds of the entries between the walks -----

  ghost predicate AllComplete(db: Database, m: Entries) {
    forall r | r in db.versions && KeyOf(db, r) in m :: IsComplete(db, m, r)
  }

  ghost predicate AllRecordedOrDead(db: Database, m: Entries) {
    forall k | k in m :: IsRecordedOrDead(db, m[k])
  }

  ghost predicate SomeDead(db: Database, roots: set<VersionRow>) {
    exists r :: r in roots && DeadEdgeBehind(db, r)
  }

  ghost predicate IsDirectExactly(db: Database, m: Entries, roots: set<VersionRow>) {
    forall r | r in db.versions && KeyOf(db, r) in m :: DIRECT_DEPENDENCY in m[KeyOf(db, r)].data.flags <==> r in roots
  }

  ghost predicate ReachedKeyFrom(db: Database, roots: set<VersionRow>, k: Package) {
    exists a :: a in roots && ReachedKey(db, a, k)
  }

  ghost predicate CoversRoots(db: Database, m: Entries, roots: set<VersionRow>) {
    && (forall r | r in roots :: r in db.versions && KeyOf(db, r) in m)
    && (forall k | k in m :: ReachedKeyFrom(db, roots, k))
  }

  /** The entries are what walking from the roots gives. */
  ghost predicate IsWalkOf(db: Database, m: Entries, roots: set<VersionRow>) {
    && IsSound(db, m) && CoversRoots(db, m, roots) && IsDirectExactly(db, m, roots)
    && (SomeDead(db, roots) || AllComplete(db, m)) && AllRecordedOrDead(db, m)
  }

  ghost predicate AllAreMet(db: Database, m: Entries, met: map<Package, Meeting>) {
    forall k | k in m :: k in met && IsMetAs(db, m[k], met[k])
  }

  /** From m to n the dependencies in more were met, besides those known before. */
  ghost predicate MetFrom(db: Database, m: Entries, n: Entries, more: map<Package, Meeting>) {
    forall met {:trigger AllAreMet(db, m, met)} :: AllAreMet(db, m, met) ==> AllAreMet(db, n, met + more)
  }

  // ----- one requested project -----

  /** A requested package is entered anew even if the walk has met it before, and marked. */
  method FindDeps(w: Walk, project: ProjectRow, version: Version, ghost roots: set<VersionRow>)
    returns (r: Result<(), LookupError>)
    requires project in w.db.projects && IsWalkOf(w.db, w.all, roots)
    modifies w`all
    ensures IsWalkOf(w.db, w.all, roots + Resolved(w.db, [project], version))
    ensures Resolves(w.db, project, version) ==> r.Success?
    ensures r.Success? ==> Resolve(w.db, project.id, version).Some?
    ensures r.Success? && AllComplete(w.db, old(w.all)) ==> AllComplete(w.db, w.all)
    ensures var o := EnterProject(w.db, old(w.all).Keys, project.id, version);
            && w.all.Keys == o.entered && MetFrom(w.db, old(w.all), w.all, o.met)
            && o.failure == if r.Success? then None else Some(r.error)
  {
    hide *;
    ProjectEntered(w.db, w.all.Keys, project.id, version);
    var lookup := GetExactProjectVersionId(w.db, project.id, version, project.flags + {DIRECT_DEPENDENCY});
    ResolvedOne(w.db, project, version, roots);
    NothingMetFrom(w.db, w.all);
    if lookup.Failure? {
      return Failure(lookup.error);
    }
    var data := PackageData(Package(project.path, lookup.value.version.Key()),
                            lookup.value.id, lookup.value.flags, lookup.value.hash);
    ghost var row := Resolve(w.db, project.id, version).value;
    DirectDataFromLookup(w.db, project, version);
    WalkIsSound(w.db, w.all, roots);
    RootEntered(w.db, w.all, data, row);
    w.all := w.all[data.pkg := Entry(data, map[])];
    assert w.all.Keys == old(w.all).Keys + {KeyOf(w.db, row)};
    var deps := w.GetProjectDependencies(data.id, row);
    ghost var behind := EnterEdges(w.db, old(w.all).Keys + {KeyOf(w.db, row)}, EdgesOf(w.db, row.id));
    Walked(w.db, old(w.all), data, w.all, row);
    if deps.Failure? {
      DeadRootWalked(w.db, old(w.all), data, w.all, row, roots);
      RootMet(w.db, old(w.all), data, w.all, row, false, map[], behind.met);
      return Failure(deps.error);
    }
    RootWalked(w.db, old(w.all), data, w.all, row, deps.value, roots);
    RootMet(w.db, old(w.all), data, w.all, row, true, deps.value, behind.met);
    assert w.all[data.pkg := Entry(data, deps.value)].Keys == w.all.Keys;
    w.all := w.all[data.pkg := Entry(data, deps.value)];
    return Success(());
  }

  lemma ProjectEntered(db: Database, entered: set<Package>, projectId: nat, version: Version)
    ensures Resolve(db, projectId, version).None? ==>
              EnterProject(db, entered, projectId, version)
                == Outcome(entered, map[], Some(NoSuchVersion(version, projectId)))
    ensures Resolve(db, projectId, version).Some? ==>
              var row := Resolve(db, projectId, version).value;
              var behind := EnterEdges(db, entered + {KeyOf(db, row)}, EdgesOf(db, row.id));
              EnterProject(db, entered, projectId, version)
                == Outcome(behind.entered, behind.met[KeyOf(db, row) := Requested(behind.failure.None?)],
                           behind.failure)
  {
  }

  lemma NothingMetFrom(db: Database, m: Entries)
    ensures MetFrom(db, m, m, map[])
  {
    forall met | AllAreMet(db, m, met)
      ensures AllAreMet(db, m, met + map[])
    {
      assert met + map[] == met;
    }
  }

  /** The requested package is marked, in whatever way it was met before; the new packages behind it
      were met by dependencies. */
  lemma RootMet(db: Database, m: Entries, data: PackageData, n: Entries, row: VersionRow, recorded: bool,
                deps: map<string, PackageData>, more: map<Package, Meeting>)
    requires WalkedFrom(db, m, data, n, row) && AreMetAs(db, n, more)
    requires more.Keys == n.Keys - (m.Keys + {data.pkg})
    requires if recorded then Records(db, row, deps) else deps == map[]
    ensures MetFrom(db, m, n[data.pkg := Entry(data, deps)], more[data.pkg := Requested(recorded)])
    ensures deps == map[] ==> n[data.pkg := Entry(data, deps)] == n
  {
    RootIsMetAs(db, data, row, recorded, deps);
    RootLeft(db, m, data, n, row);
    hide WalkedFrom, IsMetAs, IsRecordedOrDead;
    var o, all := n[data.pkg := Entry(data, deps)], more[data.pkg := Requested(recorded)];
    forall met | AllAreMet(db, m, met)
      ensures AllAreMet(db, o, met + all)
    {
      forall k | k in o
        ensures k in met + all && IsMetAs(db, o[k], (met + all)[k])
      {
        assert k != data.pkg && k in m ==> n[k] == m[k] && k !in all;
      }
    }
  }

  lemma RootIsMetAs(db: Database, data: PackageData, row: VersionRow, recorded: bool, deps: map<string, PackageData>)
    requires row in db.versions && data.pkg == KeyOf(db, row) && DIRECT_DEPENDENCY in data.flags
    requires if recorded then Records(db, row, deps) else deps == map[]
    ensures IsMetAs(db, Entry(data, deps), Requested(recorded))
  {
  }

  lemma MetInSteps(db: Database, m: Entries, n: Entries, o: Entries, met: map<Package, Meeting>,
                   more: map<Package, Meeting>)
    requires MetFrom(db, m, n, met) && MetFrom(db, n, o, more)
    ensures MetFrom(db, m, o, met + more)
  {
    hide AllAreMet;
    forall first | AllAreMet(db, m, first)
      ensures AllAreMet(db, o, first + (met + more))
    {
      assert AllAreMet(db, n, first + met);
      assert AllAreMet(db, o, first + met + more);
      MeetingsInTurn(first, met, more);
    }
  }

  lemma MeetingsInTurn(a: map<Package, Meeting>, b: map<Package, Meeting>, c: map<Package, Meeting>)
    ensures a + (b + c) == a + b + c
  {
  }

  lemma ResolvedOne(db: Database, p: ProjectRow, version: Version, roots: set<VersionRow>)
    ensures Resolve(db, p.id, version).None? ==> roots + Resolved(db, [p], version) == roots
    ensures Resolve(db, p.id, version).Some? ==> Resolved(db, [p], version) == {Resolve(db, p.id, version).value}
    ensures Resolves(db, p, version) <==>
              Resolve(db, p.id, version).Some? && !DeadEdgeBehind(db, Resolve(db, p.id, version).value)
  {
  }

  lemma DirectDataFromLookup(db: Database, p: ProjectRow, version: Version)
    requires p in db.projects && Resolve(db, p.id, version).Some?
    ensures var row := Resolve(db, p.id, version).value;
            var found := LookupOf(version, p.flags + {DIRECT_DEPENDENCY}, row);
            && row in db.versions && KeyOf(db, row) == Package(p.path, found.version.Key())
            && found.id == row.id && DIRECT_DEPENDENCY in found.flags
            && IsTrueData(db, PackageData(KeyOf(db, row), found.id, found.flags, found.hash))
  {
    var q := FindProject(db.projects, p.id).value;
    assert SameProject(p, q);
    var row := Resolve(db, p.id, version).value;
    assert HasMergedFlags(db, row, p.flags + {DIRECT_DEPENDENCY} + row.flags);
  }

  lemma WalkIsSound(db: Database, m: Entries, roots: set<VersionRow>)
    requires IsWalkOf(db, m, roots)
    ensures IsSound(db, m) && AllRecordedOrDead(db, m)
  {
  }

  lemma RootEntered(db: Database, m: Entries, data: PackageData, row: VersionRow)
    requires IsSound(db, m) && row in db.versions && data.pkg == KeyOf(db, row) && data.id == row.id
    requires IsTrueData(db, data)
    ensures IsSound(db, m[data.pkg := Entry(data, map[])])
  {
    var n := m[data.pkg := Entry(data, map[])];
    IdOfEntry(db, m, row);
    forall k | k in n
      ensures KnowsDependencies(n, n[k])
    {
      assert k in m ==> KnowsDependencies(m, m[k]);
    }
  }

  lemma IdOfEntry(db: Database, m: Entries, row: VersionRow)
    requires AreRows(db, m) && row in db.versions
    ensures KeyOf(db, row) in m ==> m[KeyOf(db, row)].data.id == row.id
  {
    if KeyOf(db, row) in m {
      var r :| r in db.versions && KeyOf(db, r) == KeyOf(db, row) && r.id == m[KeyOf(db, row)].data.id;
      KeyOfIsInjective(db, r, row);
    }
  }

  /** The entries n that a walk from row left behind after row was entered into m. */
  ghost predicate WalkedFrom(db: Database, m: Entries, data: PackageData, n: Entries, row: VersionRow) {
    && row in db.versions && data.pkg == KeyOf(db, row) && data.id == row.id && DIRECT_DEPENDENCY in data.flags
    && Grown(db, m[data.pkg := Entry(data, map[])], n, row)
  }

  lemma Walked(db: Database, m: Entries, data: PackageData, n: Entries, row: VersionRow)
    requires row in db.versions && data.pkg == KeyOf(db, row) && data.id == row.id && DIRECT_DEPENDENCY in data.flags
    requires Grown(db, m[data.pkg := Entry(data, map[])], n, row)
    ensures WalkedFrom(db, m, data, n, row)
  {
    hide Grown, WellFormed;
  }

  lemma RootsCovered(db: Database, m: Entries, data: PackageData, n: Entries, row: VersionRow, roots: set<VersionRow>)
    requires CoversRoots(db, m, roots) && WalkedFrom(db, m, data, n, row)
    ensures CoversRoots(db, n, roots + {row})
  {
    hide IsSound, Reaches, WellFormed, KeyOf, AddedAreRecorded, PathOf;
    ReachesSelf(Succ(db), row);
    forall k | k in n
      ensures ReachedKeyFrom(db, roots + {row}, k)
    {
      if k != data.pkg && k in m {
        var a :| a in roots && ReachedKey(db, a, k);
        assert a in roots + {row};
      }
    }
  }

  lemma RootMarked(db: Database, m: Entries, data: PackageData, n: Entries, row: VersionRow, roots: set<VersionRow>)
    requires IsDirectExactly(db, m, roots) && CoversRoots(db, m, roots) && WalkedFrom(db, m, data, n, row)
    ensures IsDirectExactly(db, n, roots + {row})
  {
    hide IsSound, ReachedKey, WellFormed, PathOf;
    assert data.pkg in n && n[data.pkg].data == data;
    forall r | r in db.versions && KeyOf(db, r) in n
      ensures DIRECT_DEPENDENCY in n[KeyOf(db, r)].data.flags <==> r in roots + {row}
    {
      if KeyOf(db, r) == data.pkg {
        KeyOfIsInjective(db, r, row);
      }
    }
  }

  lemma DeadRootWalked(db: Database, m: Entries, data: PackageData, n: Entries, row: VersionRow, roots: set<VersionRow>)
    requires IsWalkOf(db, m, roots) && WalkedFrom(db, m, data, n, row) && DeadEdgeBehind(db, row)
    ensures IsWalkOf(db, n, roots + {row})
  {
    hide DeadEdgeBehind, AllComplete, CoversRoots, IsDirectExactly, AllRecordedOrDead;
    RootsCovered(db, m, data, n, row, roots);
    RootMarked(db, m, data, n, row, roots);
    RootRecordedOrDead(db, m, data, n, row);
    assert row in roots + {row};
  }

  /** What is said of the other entries stays so when the edges of the root are recorded. */
  lemma RootRecordedOrDead(db: Database, m: Entries, data: PackageData, n: Entries, row: VersionRow)
    requires AllRecordedOrDead(db, m) && WalkedFrom(db, m, data, n, row)
    ensures forall deps :: Records(db, row, deps) ==> AllRecordedOrDead(db, n[data.pkg := Entry(data, deps)])
    ensures DeadEdgeBehind(db, row) ==> AllRecordedOrDead(db, n)
  {
    hide IsSound, ReachedKey, DeadEdgeBehind, Records, WellFormed, KeyOf;
    RootLeft(db, m, data, n, row);
    forall deps | Records(db, row, deps)
      ensures IsRecordedOrDead(db, Entry(data, deps))
    {
      AllRecorded(db, data, row, deps);
    }
    if DeadEdgeBehind(db, row) {
      assert IsRecordedOrDead(db, n[data.pkg]);
    }
    forall k | k in n && k != data.pkg
      ensures IsRecordedOrDead(db, n[k])
    {
      assert k in m ==> n[k] == m[k];
    }
  }

  lemma RootLeft(db: Database, m: Entries, data: PackageData, n: Entries, row: VersionRow)
    requires WalkedFrom(db, m, data, n, row)
    ensures data.pkg in n && n[data.pkg] == Entry(data, map[]) && row in db.versions && data.pkg == KeyOf(db, row)
    ensures forall k | k in n && k != data.pkg :: if k in m then n[k] == m[k] else IsRecordedOrDead(db, n[k])
  {
    hide IsSound, ReachedKey, IsRecordedOrDead, WellFormed, KeyOf;
  }

  lemma RootWalked(db: Database, m: Entries, data: PackageData, n: Entries, row: VersionRow,
                   deps: map<string, PackageData>, roots: set<VersionRow>)
    requires IsWalkOf(db, m, roots) && WalkedFrom(db, m, data, n, row)
    requires AddedAreComplete(db, m[data.pkg := Entry(data, map[])], n)
    requires Records(db, row, deps) && TargetsAreEntries(db, n, row)
    ensures IsWalkOf(db, n[data.pkg := Entry(data, deps)], roots + {row})
    ensures AllComplete(db, m) ==> AllComplete(db, n[data.pkg := Entry(data, deps)])
  {
    hide *;
    WalkedParts(db, m, data, n, row, roots);
    var o := n[data.pkg := Entry(data, deps)];
    RootsCovered(db, m, data, n, row, roots);
    RootMarked(db, m, data, n, row, roots);
    RootRecordedOrDead(db, m, data, n, row);
    KnownFromRecords(db, n, row, deps);
    assert o.Keys == n.Keys;
    SameKeysCover(db, n, o, roots + {row});
    SameDataIsDirect(db, n, o, roots + {row});
    EntryKnows(n, data, deps);
    AllRecorded(db, data, row, deps);
    EdgesReplaced(db, n, data, deps);
    if AllComplete(db, m) {
      RootComplete(db, m, data, n, row, deps);
    }
    WalkAssembled(db, m, o, row, roots);
  }

  lemma EntryKnows(n: Entries, data: PackageData, deps: map<string, PackageData>)
    requires forall p | p in deps :: deps[p].pkg in n && n[deps[p].pkg].data.id == deps[p].id
    ensures KnowsDependencies(n, Entry(data, deps))
  {
  }

  lemma WalkedParts(db: Database, m: Entries, data: PackageData, n: Entries, row: VersionRow, roots: set<VersionRow>)
    requires IsWalkOf(db, m, roots) && WalkedFrom(db, m, data, n, row)
    ensures CoversRoots(db, m, roots) && IsDirectExactly(db, m, roots) && (SomeDead(db, roots) || AllComplete(db, m))
    ensures AllRecordedOrDead(db, m)
    ensures AreRows(db, n) && IsSound(db, n) && data.pkg in n && n[data.pkg].data == data
    ensures row in db.versions && data.pkg == KeyOf(db, row)
  {
  }

  lemma WalkAssembled(db: Database, m: Entries, o: Entries, row: VersionRow, roots: set<VersionRow>)
    requires IsSound(db, o) && CoversRoots(db, o, roots + {row}) && IsDirectExactly(db, o, roots + {row})
    requires (SomeDead(db, roots) || AllComplete(db, o)) && AllRecordedOrDead(db, o)
    ensures IsWalkOf(db, o, roots + {row})
  {
    hide IsSound, CoversRoots, IsDirectExactly, AllComplete, AllRecordedOrDead, DeadEdgeBehind;
    if r :| r in roots && DeadEdgeBehind(db, r) {
      assert r in roots + {row};
    }
  }

  /** What is said of keys and data does not depend on the recorded edges. */
  lemma SameKeysCover(db: Database, n: Entries, o: Entries, roots: set<VersionRow>)
    requires n.Keys == o.Keys && CoversRoots(db, n, roots)
    ensures CoversRoots(db, o, roots)
  {
    hide ReachedKeyFrom, WellFormed, KeyOf;
    assert forall k :: k in o <==> k in n.Keys;
  }

  lemma SameDataIsDirect(db: Database, n: Entries, o: Entries, roots: set<VersionRow>)
    requires n.Keys == o.Keys && forall k | k in n :: o[k].data == n[k].data
    requires IsDirectExactly(db, n, roots)
    ensures IsDirectExactly(db, o, roots)
  {
    hide WellFormed, KeyOf;
    forall r | r in db.versions && KeyOf(db, r) in o
      ensures DIRECT_DEPENDENCY in o[KeyOf(db, r)].data.flags <==> r in roots
    {
      assert KeyOf(db, r) in n.Keys;
    }
  }

  lemma RootComplete(db: Database, m: Entries, data: PackageData, n: Entries, row: VersionRow,
                     deps: map<string, PackageData>)
    requires AllComplete(db, m) && WalkedFrom(db, m, data, n, row)
    requires AddedAreComplete(db, m[data.pkg := Entry(data, map[])], n)
    requires Records(db, row, deps) && TargetsAreEntries(db, n, row)
    ensures AllComplete(db, n[data.pkg := Entry(data, deps)])
  {
    hide Records, Targets, WellFormed;
    var o := n[data.pkg := Entry(data, deps)];
    forall r | r in db.versions && KeyOf(db, r) in o
      ensures IsComplete(db, o, r)
    {
      if KeyOf(db, r) == data.pkg {
        KeyOfIsInjective(db, r, row);
      } else if KeyOf(db, r) in m {
        assert IsComplete(db, m, r);
      } else {
        assert IsComplete(db, n, r);
      }
    }
  }

  // ----- all requests -----

  method FindRequest(w: Walk, q: Request, ghost roots: set<VersionRow>) returns (r: Result<(), FindError>)
    requires IsWalkOf(w.db, w.all, roots)
    modifies w`all
    ensures r.Success? ==> IsWalkOf(w.db, w.all, roots + RequestRoots(w.db, q))
    ensures IsServed(w.db, q) ==> r.Success?
    ensures r.Success? ==> IsAnswered(w.db, q)
    ensures !q.isLocal ==> (r == Failure(PackageNotFound(q.path)) <==> FindPath(w.db.projects, q.path).None?)
    ensures r == Failure(RootProjectEmpty(q.path)) ==> Wanted(w.db, q) == []
    ensures r.Success? && !NamesRoot(w.db, q) && AllComplete(w.db, old(w.all)) ==> AllComplete(w.db, w.all)
    ensures var o := EnterRequest(w.db, old(w.all).Keys, q);
            && w.all.Keys == o.entered && MetFrom(w.db, old(w.all), w.all, o.met)
            && o.failure == if r.Success? then None else Some(r.error)
  {
    hide IsWalkOf, Resolved, Resolves, AllComplete, EnterProject, WellFormed, Children, FindPath, Resolve, MetFrom;
    NothingMetFrom(w.db, w.all);
    if q.isLocal {
      assert roots + RequestRoots(w.db, q) == roots;
      return Success(());
    }
    var project := FindPath(w.db.projects, q.path);
    if project.None? {
      return Failure(PackageNotFound(q.path));
    }
    var wanted := Wanted(w.db, q);
    if project.value.kind.RootProject? {
      if |wanted| == 0 {
        return Failure(RootProjectEmpty(q.path));
      }
      var n := 0;
      ghost var met: map<Package, Meeting> := map[];
      ResolvedNone(w.db, q.version, roots);
      NoChildBefore(EnterChildren(w.db, w.all.Keys, wanted, q.version));
      assert wanted[0..] == wanted;
      for j := 0 to |wanted|
        invariant IsWalkOf(w.db, w.all, roots + Resolved(w.db, wanted[..j], q.version))
        invariant n == 0 ==> forall p | p in wanted[..j] :: !Resolves(w.db, p, q.version)
        invariant n > 0 ==> IsAnswered(w.db, q)
        invariant EnterChildren(w.db, old(w.all).Keys, wanted, q.version)
               == AfterChildren(met, n > 0, EnterChildren(w.db, w.all.Keys, wanted[j..], q.version))
        invariant MetFrom(w.db, old(w.all), w.all, met)
      {
        ghost var before := w.all;
        assert wanted[j] in wanted;
        assert wanted[j..][0] == wanted[j] && wanted[j..][1..] == wanted[j + 1..];
        ResolvedOneMore(w.db, wanted, j, q.version, roots);
        var found := FindDeps(w, wanted[j], q.version, roots + Resolved(w.db, wanted[..j], q.version));
        assert wanted[..j + 1] == wanted[..j] + [wanted[j]];
        ghost var o := EnterProject(w.db, before.Keys, wanted[j].id, q.version);
        MetInSteps(w.db, old(w.all), before, w.all, met, o.met);
        ChildrenInTurn(met, n > 0, o, EnterChildren(w.db, w.all.Keys, wanted[j + 1..], q.version));
        met := met + o.met;
        if found.Success? {
          n := n + 1;
        }
      }
      assert wanted[..|wanted|] == wanted && wanted[|wanted|..] == [];
      assert met + map[] == met;
      if n == 0 {
        return Failure(NoVersion(NoSuchVersion(q.version, project.value.id)));
      }
    } else {
      var found := FindDeps(w, project.value, q.version, roots);
      if found.Failure? {
        return Failure(NoVersion(found.error));
      }
    }
    return Success(());
  }

  lemma NoChildBefore(o: Outcome<()>)
    ensures AfterChildren(map[], false, o) == o
  {
    assert map[] + o.met == o.met;
  }

  lemma ChildrenInTurn(met: map<Package, Meeting>, some: bool, first: Outcome<LookupError>, rest: Outcome<()>)
    ensures AfterChildren(met, some, AfterChildren(first.met, first.Succeeds(), rest))
         == AfterChildren(met + first.met, some || first.Succeeds(), rest)
  {
    assert met + (first.met + rest.met) == met + first.met + rest.met;
  }

  lemma ResolvedNone(db: Database, version: Version, roots: set<VersionRow>)
    ensures forall s: seq<ProjectRow> :: roots + Resolved(db, s[..0], version) == roots
  {
  }

  lemma ResolvedOneMore(db: Database, s: seq<ProjectRow>, j: nat, version: Version, roots: set<VersionRow>)
    requires j < |s|
    ensures roots + Resolved(db, s[..j + 1], version)
         == roots + Resolved(db, s[..j], version) + Resolved(db, [s[j]], version)
  {
    assert s[..j + 1] == s[..j] + [s[j]];
  }

  lemma RootsOneMore(db: Database, requests: seq<Request>, i: nat)
    requires i < |requests|
    ensures Roots(db, requests[..i + 1]) == Roots(db, requests[..i]) + RequestRoots(db, requests[i])
  {
    assert requests[..i + 1] == requests[..i] + [requests[i]];
  }

  // ----- the result by id -----

  /** Each package of the result is filed under its id. */
  ghost predicate IsFiled(all: Entries, m: map<nat, Found>) {
    && (forall k | k in all :: all[k].data.id in m && m[all[k].data.id] == FoundOf(all[k]))
    && (forall id | id in m :: exists k :: k in all && all[k].data.id == id)
  }

  ghost function FoundOf(e: Entry): Found {
    Found(e.data, e.dbDependencies, RecordedIds(e.dbDependencies))
  }

  method FileById(db: Database, all: Entries) returns (m: map<nat, Found>)
    requires IsSound(db, all)
    ensures IsFiled(all, m)
  {
    hide IsSound;
    m := map[];
    var todo := all.Keys;
    while todo != {}
      invariant todo <= all.Keys
      invariant forall k | k in all && k !in todo :: all[k].data.id in m && m[all[k].data.id] == FoundOf(all[k])
      invariant forall id | id in m :: exists k :: k in all && all[k].data.id == id
      decreases |todo|
    {
      var k :| k in todo;
      var d := all[k];
      var ids := set p | p in d.dbDependencies :: d.dbDependencies[p].id;
      assert Found(d.data, d.dbDependencies, ids) == FoundOf(d);
      IdsDiffer(db, all, k);
      m := m[d.data.id := Found(d.data, d.dbDependencies, ids)];
      todo := todo - {k};
    }
  }

  lemma IdsDiffer(db: Database, all: Entries, k: Package)
    requires IsSound(db, all) && k in all
    ensures forall l | l in all && all[l].data.id == all[k].data.id :: l == k
  {
    forall l | l in all && all[l].data.id == all[k].data.id
      ensures l == k
    {
      var r :| r in db.versions && KeyOf(db, r) == k && r.id == all[k].data.id;
      var s :| s in db.versions && KeyOf(db, s) == l && s.id == all[l].data.id;
      assert SameVersion(r, s);
    }
  }

  // ----- what the result means -----

  /** Each result is a version row's package, filed under its id with the recorded ids. */
  ghost predicate NamesRows(db: Database, m: map<nat, Found>) {
    forall id | id in m ::
      && m[id].data.id == id && m[id].idDependencies == RecordedIds(m[id].dbDependencies)
      && exists row :: row in db.versions && row.id == id && KeyOf(db, row) == m[id].data.pkg
  }

  /** Each result carries the hash and the merged flags of its row. */
  ghost predicate HasTrueResults(db: Database, m: map<nat, Found>) {
    forall id | id in m :: IsTrueData(db, m[id].data)
  }

  /** Every dependency named by a result is itself a result, and it is the package the record names. */
  ghost predicate HasDependencies(m: map<nat, Found>) {
    forall id, p | id in m && p in m[id].dbDependencies ::
      var d := m[id].dbDependencies[p]; d.id in m && m[d.id].data.pkg == d.pkg
  }

  /** A result has all the edges of its row, or none, and then the walk behind it has failed. */
  ghost predicate HasAllEdgesOrNone(db: Database, m: map<nat, Found>) {
    forall row | row in db.versions && row.id in m ::
      Records(db, row, m[row.id].dbDependencies) || (m[row.id].dbDependencies == map[] && DeadEdgeBehind(db, row))
  }

  ghost predicate IsMarked(db: Database, m: map<nat, Found>, roots: set<VersionRow>) {
    forall row | row in db.versions && row.id in m :: DIRECT_DEPENDENCY in m[row.id].data.flags <==> row in roots
  }

  ghost predicate IsReached(db: Database, m: map<nat, Found>, roots: set<VersionRow>) {
    && (forall row | row in roots :: row.id in m)
    && (forall row | row in db.versions && row.id in m :: ReachedFrom(Succ(db), roots, row))
  }

  /** The results are exactly the packages reached from the roots, each with exactly its
      resolved edges. */
  ghost predicate IsExact(db: Database, m: map<nat, Found>, roots: set<VersionRow>) {
    forall row | row in db.versions ::
      && (row.id in m <==> ReachedFrom(Succ(db), roots, row))
      && (row.id in m ==> Records(db, row, m[row.id].dbDependencies))
  }

  ghost predicate HasEntered(db: Database, m: map<nat, Found>, entered: set<Package>) {
    forall row | row in db.versions :: row.id in m <==> KeyOf(db, row) in entered
  }

  /** Each result is as it was met: by a request, and marked, or by a dependency, with its flags,
      those of the project and those of the version. It has exactly its resolved edges if its walk
      came to its end, otherwise none. */
  ghost predicate AreResultsMet(db: Database, m: map<nat, Found>, met: map<Package, Meeting>) {
    forall row | row in db.versions && row.id in m ::
      KeyOf(db, row) in met && IsResultMet(db, row, m[row.id], met[KeyOf(db, row)])
  }

  ghost predicate IsResultMet(db: Database, row: VersionRow, f: Found, meeting: Meeting) {
    && IsDataMet(db, row, f.data, meeting)
    && if meeting.recorded then Records(db, row, f.dbDependencies) else f.dbDependencies == map[]
  }

  ghost predicate IsDataMet(db: Database, row: VersionRow, data: PackageData, meeting: Meeting) {
    match meeting
    case Requested(_) =>
      var flags := ProjectFlags(db, row.projectId) + {DIRECT_DEPENDENCY} + row.flags;
      data == PackageData(KeyOf(db, row), row.id, flags, row.hash)
    case MetBy(e, _) => IsDataBy(db, e, row, data)
  }

  ghost predicate IsDataBy(db: Database, e: DependencyRow, row: VersionRow, data: PackageData) {
    Resolve(db, e.projectId, e.version) == Some(row) && data == DataOf(db, e)
  }

  /** Each result that was not requested has the data of a dependency of another result. */
  ghost predicate IsMetByResults(db: Database, m: map<nat, Found>) {
    forall row | row in db.versions && row.id in m && DIRECT_DEPENDENCY !in m[row.id].data.flags ::
      exists owner, e :: owner in db.versions && owner.id in m && e in EdgesOf(db, owner.id)
                         && IsDataBy(db, e, row, m[row.id].data)
  }

  method FindDependencies(db: Database, requests: seq<Request>) returns (r: Result<map<nat, Found>, FindError>)
    ensures (forall q | q in requests :: IsServed(db, q)) ==> r.Success?
    ensures r.Success? ==> forall q | q in requests :: IsAnswered(db, q)
    ensures r.Success? ==> NamesRows(db, r.value) && HasDependencies(r.value)
    ensures EnterRequests(db, {}, requests).failure == if r.Success? then None else Some(r.error)
    ensures r.Success? ==> HasEntered(db, r.value, EnterRequests(db, {}, requests).entered)
    ensures r.Success? ==> AreResultsMet(db, r.value, EnterRequests(db, {}, requests).met)
    ensures r.Success? ==> IsMetByResults(db, r.value)
    ensures r.Success? ==> HasTrueResults(db, r.value) && HasAllEdgesOrNone(db, r.value)
    ensures (forall q | q in requests :: !NamesRoot(db, q)) ==>
              && (r.Success? <==> forall q | q in requests :: IsServed(db, q))
              && (r.Success? ==> IsExact(db, r.value, Roots(db, requests)))
    ensures r.Success? ==> IsMarked(db, r.value, Roots(db, requests)) && IsReached(db, r.value, Roots(db, requests))
    ensures r.Success? ==> (IsExact(db, r.value, Roots(db, requests)) <==> !SomeDead(db, Roots(db, requests)))
  {
    hide *;
    var w := new Walk(db);
    NothingWalked(db, requests);
    assert requests[0..] == requests && w.all.Keys == {};
    ghost var met: map<Package, Meeting> := map[];
    NothingAfterwards(EnterRequests(db, {}, requests));
    for i := 0 to |requests|
      invariant fresh(w) && w.db == db
      invariant IsWalkOf(db, w.all, Roots(db, requests[..i]))
      invariant forall k | 0 <= k < i :: IsAnswered(db, requests[k])
      invariant (forall q | q in requests :: !NamesRoot(db, q)) ==> AllComplete(db, w.all)
      invariant EnterRequests(db, {}, requests) == After(met, EnterRequests(db, w.all.Keys, requests[i..]))
      invariant AllAreMet(db, w.all, met)
    {
      ghost var before := w.all;
      assert requests[i] in requests;
      FirstRequest(db, w.all.Keys, requests[i..]);
      assert requests[i..][0] == requests[i] && requests[i..][1..] == requests[i + 1..];
      RootsOneMore(db, requests, i);
      var found := FindRequest(w, requests[i], Roots(db, requests[..i]));
      ghost var o := EnterRequest(db, before.Keys, requests[i]);
      RequestsInTurn(met, o, EnterRequests(db, w.all.Keys, requests[i + 1..]));
      if found.Failure? {
        return Failure(found.error);
      }
      MetNow(db, before, w.all, met, o.met);
      met := met + o.met;
    }
    assert requests[..|requests|] == requests && requests[|requests|..] == [];
    NoRequest(db, w.all.Keys);
    RequestsEnd(met, w.all.Keys);
    RequestsMeetInside(db, {}, requests);
    if forall q | q in requests :: !NamesRoot(db, q) {
      CompleteHasNoDead(db, w.all, Roots(db, requests));
      AnsweredIsServed(db, requests);
    }
    WalkIsSound(db, w.all, Roots(db, requests));
    var m := FileById(db, w.all);
    FiledWalk(db, w.all, m, Roots(db, requests));
    FiledEntered(db, w.all, m);
    FiledMet(db, w.all, m, met);
    MetInResults(db, m, EnterRequests(db, {}, requests));
    return Success(m);
  }

  lemma NothingWalked(db: Database, requests: seq<Request>)
    ensures IsWalkOf(db, map[], Roots(db, requests[..0])) && AllComplete(db, map[])
    ensures AllAreMet(db, map[], map[])
  {
  }

  lemma NothingAfterwards(o: Outcome<FindError>)
    ensures After(map[], o) == o
  {
    assert map[] + o.met == o.met;
  }

  lemma RequestsInTurn(met: map<Package, Meeting>, first: Outcome<FindError>, rest: Outcome<FindError>)
    ensures After(met, After(first.met, rest)) == After(met + first.met, rest)
    ensures After(met, first) == Outcome(first.entered, met + first.met, first.failure)
  {
    assert met + (first.met + rest.met) == met + first.met + rest.met;
  }

  lemma RequestsEnd(met: map<Package, Meeting>, entered: set<Package>)
    ensures After<FindError>(met, Outcome(entered, map[], None)) == Outcome(entered, met, None)
  {
    assert met + map[] == met;
  }

  lemma MetNow(db: Database, m: Entries, n: Entries, met: map<Package, Meeting>,
               more: map<Package, Meeting>)
    requires MetFrom(db, m, n, more) && AllAreMet(db, m, met)
    ensures AllAreMet(db, n, met + more)
  {
    hide AllAreMet;
  }

  lemma FirstRequest(db: Database, entered: set<Package>, requests: seq<Request>)
    requires requests != []
    ensures var first := EnterRequest(db, entered, requests[0]);
            EnterRequests(db, entered, requests)
              == if first.failure.Some? then first
                 else After(first.met, EnterRequests(db, first.entered, requests[1..]))
  {
  }

  lemma NoRequest(db: Database, entered: set<Package>)
    ensures EnterRequests(db, entered, []) == Outcome(entered, map[], None)
  {
  }

  // ----- by which dependencies the requests meet packages -----

  lemma {:induction false} ChildrenMeetInside(db: Database, entered: set<Package>, projects: seq<ProjectRow>,
                                              version: Version)
    ensures var o := EnterChildren(db, entered, projects, version); AreMetInside(db, o.met, o.entered)
    decreases |projects|
  {
    hide AreMetInside, EnterProject;
    if projects == [] {
      NothingIsMetInside(db, entered);
    } else {
      var first := EnterProject(db, entered, projects[0].id, version);
      var rest := EnterChildren(db, first.entered, projects[1..], version);
      ProjectMeetsInside(db, entered, projects[0].id, version);
      ChildrenMeetInside(db, first.entered, projects[1..], version);
      BothMetInside(db, first.met, first.entered, rest.met, rest.entered);
    }
  }

  lemma NothingIsMetInside(db: Database, entered: set<Package>)
    ensures AreMetInside(db, map[], entered)
  {
  }

  lemma BothMetInside(db: Database, met: map<Package, Meeting>, few: set<Package>,
                      more: map<Package, Meeting>, entered: set<Package>)
    requires AreMetInside(db, met, few) && AreMetInside(db, more, entered) && few <= entered
    ensures AreMetInside(db, met + more, entered)
  {
    hide IsOfEntered, Resolve, KeyOf, WellFormed;
    OfMoreEntered(db, few, entered);
  }

  lemma RequestMeetsInside(db: Database, entered: set<Package>, q: Request)
    ensures var o := EnterRequest(db, entered, q); AreMetInside(db, o.met, o.entered)
  {
    hide AreMetInside, EnterProject, EnterChildren, Children, FindPath;
    NothingIsMetInside(db, entered);
    var project := FindPath(db.projects, q.path);
    if project.Some? {
      ProjectMeetsInside(db, entered, project.value.id, q.version);
      ChildrenMeetInside(db, entered, Children(db, q.path), q.version);
    }
  }

  lemma {:induction false} RequestsMeetInside(db: Database, entered: set<Package>, requests: seq<Request>)
    ensures var o := EnterRequests(db, entered, requests); AreMetInside(db, o.met, o.entered)
    decreases |requests|
  {
    hide AreMetInside, EnterRequest;
    if requests == [] {
      NothingIsMetInside(db, entered);
    } else {
      var first := EnterRequest(db, entered, requests[0]);
      RequestMeetsInside(db, entered, requests[0]);
      if first.Succeeds() {
        var rest := EnterRequests(db, first.entered, requests[1..]);
        RequestsMeetInside(db, first.entered, requests[1..]);
        BothMetInside(db, first.met, first.entered, rest.met, rest.entered);
      }
    }
  }

  lemma FiledMet(db: Database, all: Entries, m: map<nat, Found>, met: map<Package, Meeting>)
    requires IsSound(db, all) && IsFiled(all, m) && AllAreMet(db, all, met)
    ensures AreResultsMet(db, m, met)
  {
    hide IsFiled, IsSound, WellFormed, KeyOf, IsResultMet, IsMetAs;
    forall row | row in db.versions && row.id in m
      ensures KeyOf(db, row) in met && IsResultMet(db, row, m[row.id], met[KeyOf(db, row)])
    {
      FiledRow(db, all, m, row);
      EntryMet(db, all, row, met[KeyOf(db, row)]);
    }
  }

  lemma EntryMet(db: Database, all: Entries, row: VersionRow, meeting: Meeting)
    requires IsSound(db, all) && row in db.versions && KeyOf(db, row) in all
    requires IsMetAs(db, all[KeyOf(db, row)], meeting)
    ensures IsResultMet(db, row, FoundOf(all[KeyOf(db, row)]), meeting)
  {
    hide WellFormed, PathOf, ProjectFlags, Records, IsIdClosed, HaveAllOrNone;
    var entry := all[KeyOf(db, row)];
    forall r | r in db.versions && KeyOf(db, r) == KeyOf(db, row)
      ensures r == row
    {
      KeyOfIsInjective(db, r, row);
    }
    assert entry.data.pkg == KeyOf(db, row) && IsTrueData(db, entry.data);
  }

  lemma MetInResults(db: Database, m: map<nat, Found>, o: Outcome<FindError>)
    requires AreResultsMet(db, m, o.met) && HasEntered(db, m, o.entered) && AreMetInside(db, o.met, o.entered)
    ensures IsMetByResults(db, m)
  {
    hide IsDataBy, KeyOf, WellFormed, Resolve, EdgesOf, Records;
    forall row | row in db.versions && row.id in m && DIRECT_DEPENDENCY !in m[row.id].data.flags
      ensures exists owner, e :: owner in db.versions && owner.id in m && e in EdgesOf(db, owner.id)
                                 && IsDataBy(db, e, row, m[row.id].data)
    {
      var meeting := o.met[KeyOf(db, row)];
      assert IsResultMet(db, row, m[row.id], meeting);
      var owner :| owner in db.versions && KeyOf(db, owner) in o.entered && meeting.e in EdgesOf(db, owner.id);
      assert owner.id in m;
    }
  }

  // ----- why a search fails -----

  /** A request is to blame: its path is no project's, its root project has no children, none of
      them could be walked to the end, or a lookup on the way has no answer. */
  ghost predicate IsDueToRequest(db: Database, q: Request, error: FindError) {
    !q.isLocal &&
    match error
    case PackageNotFound(path) => path == q.path && forall p | p in db.projects :: p.path != path
    case RootProjectEmpty(path) => path == q.path && NamesRoot(db, q) && Wanted(db, q) == []
    case NoVersion(NoSuchVersion(version, id)) =>
      if NamesRoot(db, q) then
        && version == q.version && (exists p :: p in db.projects && p.path == q.path && p.id == id)
        && Wanted(db, q) != [] && forall p | p in Wanted(db, q) :: !Resolves(db, p, version)
      else Resolve(db, id, version).None?
  }

  lemma RequestFailureIsDue(db: Database, entered: set<Package>, q: Request)
    ensures var o := EnterRequest(db, entered, q); o.failure.Some? ==> IsDueToRequest(db, q, o.failure.value)
  {
    hide EnterProject, EnterChildren, Resolves, WellFormed, Like;
    var project := FindPath(db.projects, q.path);
    if project.Some? {
      ProjectFailureIsDue(db, entered, project.value.id, q.version);
      NoChildResolves(db, entered, Children(db, q.path), q.version);
    }
  }

  /** A child that would be served is walked to the end, whatever was entered before. */
  lemma {:induction false} NoChildResolves(db: Database, entered: set<Package>, projects: seq<ProjectRow>,
                                           version: Version)
    ensures EnterChildren(db, entered, projects, version).failure.Some? ==>
              forall p | p in projects :: !Resolves(db, p, version)
    decreases |projects|
  {
    hide EnterProject, Resolves;
    if projects != [] {
      var first := EnterProject(db, entered, projects[0].id, version);
      ServedIsWalked(db, entered, projects[0], version);
      NoChildResolves(db, first.entered, projects[1..], version);
    }
  }

  lemma ServedIsWalked(db: Database, entered: set<Package>, p: ProjectRow, version: Version)
    ensures Resolves(db, p, version) ==> EnterProject(db, entered, p.id, version).failure.None?
  {
    hide WellFormed, KeyOf, Fails;
    ProjectSucceedsIff(db, entered, p.id, version);
    if Resolves(db, p, version) {
      var row := Resolve(db, p.id, version).value;
      forall e | e in EdgesOf(db, row.id)
        ensures !Fails(db, entered + {KeyOf(db, row)}, e)
      {
        if Fails(db, entered + {KeyOf(db, row)}, e) {
          AliveDoesNotFail(db, entered + {KeyOf(db, row)}, row, e);
        }
      }
    }
  }

  lemma AliveDoesNotFail(db: Database, entered: set<Package>, row: VersionRow, e: DependencyRow)
    requires e in EdgesOf(db, row.id) && Fails(db, entered, e)
    ensures DeadEdgeBehind(db, row)
  {
    hide WellFormed, KeyOf, EdgesOf;
    if Resolve(db, e.projectId, e.version).None? {
      DeadEdgeHere(db, row, e);
    } else {
      var target := Resolve(db, e.projectId, e.version).value;
      var w :| Reaches(NewSucc(db, entered), target, w) && KeyOf(db, w) !in entered && HasDeadEdge(db, w);
      ReachesWithMoreEdges(NewSucc(db, entered), Succ(db), target, w);
      DeadEdgePassedOn(db, row, target);
    }
  }

  /** The error of a search is due to one of the requests. */
  lemma {:induction false} FailureIsDue(db: Database, entered: set<Package>, requests: seq<Request>)
    ensures var o := EnterRequests(db, entered, requests);
            o.failure.Some? ==> exists q :: q in requests && IsDueToRequest(db, q, o.failure.value)
    decreases |requests|
  {
    hide EnterRequest, IsDueToRequest;
    if requests != [] {
      var first := EnterRequest(db, entered, requests[0]);
      RequestFailureIsDue(db, entered, requests[0]);
      FailureIsDue(db, first.entered, requests[1..]);
    }
  }

  // ----- without root projects -----

  /** Complete entries are closed under the edges, all of which have versions. */
  lemma CompleteHasNoDead(db: Database, all: Entries, roots: set<VersionRow>)
    requires IsWalkOf(db, all, roots) && AllComplete(db, all)
    ensures !SomeDead(db, roots)
  {
    hide IsSound, CoversRoots, IsDirectExactly, Records, Targets, KeyOf, WellFormed;
    var found := set row | row in db.versions && KeyOf(db, row) in all;
    forall row | row in found
      ensures Succ(db)(row) <= found && !HasDeadEdge(db, row)
    {
      assert IsComplete(db, all, row);
      TargetsAreRows(db, row);
      RecordedAreAlive(db, row, all[KeyOf(db, row)].dbDependencies);
    }
    assert IsClosed(Succ(db), found);
    forall a, w | a in roots && Reaches(Succ(db), a, w)
      ensures !HasDeadEdge(db, w)
    {
      RootIsRow(db, all, roots, a);
      assert ReachedFrom(Succ(db), {a}, w);
      ClosedHoldsReached(Succ(db), {a}, found, w);
    }
  }

  lemma RecordedAreAlive(db: Database, row: VersionRow, deps: map<string, PackageData>)
    requires Records(db, row, deps)
    ensures !HasDeadEdge(db, row)
  {
  }

  lemma AnsweredIsServed(db: Database, requests: seq<Request>)
    requires !SomeDead(db, Roots(db, requests))
    requires forall q | q in requests :: !NamesRoot(db, q) && IsAnswered(db, q)
    ensures forall q | q in requests :: IsServed(db, q)
  {
    hide DeadEdgeBehind;
    forall q | q in requests && !q.isLocal
      ensures IsServed(db, q)
    {
      var p :| p in Wanted(db, q) && Resolve(db, p.id, q.version).Some?;
      assert Resolve(db, p.id, q.version).value in RequestRoots(db, q);
      assert Resolve(db, p.id, q.version).value in Roots(db, requests);
      assert Resolves(db, p, q.version);
    }
  }

  // ----- from entries to results -----

  lemma FiledWalk(db: Database, all: Entries, m: map<nat, Found>, roots: set<VersionRow>)
    requires IsWalkOf(db, all, roots) && IsFiled(all, m)
    ensures NamesRows(db, m) && HasTrueResults(db, m) && HasDependencies(m) && HasAllEdgesOrNone(db, m)
    ensures IsMarked(db, m, roots) && IsReached(db, m, roots)
    ensures IsExact(db, m, roots) <==> !SomeDead(db, roots)
  {
    hide *;
    WalkIsSound(db, all, roots);
    FiledRows(db, all, m);
    FiledEdges(db, all, m);
    FiledDependencies(db, all, m);
    FiledMarks(db, all, m, roots);
    FiledReached(db, all, m, roots);
    if SomeDead(db, roots) {
      forall row | row in roots
        ensures row in db.versions
      {
        RootIsRow(db, all, roots, row);
      }
      DeadIsNotExact(db, m, roots);
    } else {
      CompleteIsExact(db, all, m, roots);
    }
  }

  /** A row's id is a result exactly when its package is an entry. */
  lemma FiledRow(db: Database, all: Entries, m: map<nat, Found>, row: VersionRow)
    requires IsSound(db, all) && IsFiled(all, m) && row in db.versions
    ensures row.id in m <==> KeyOf(db, row) in all
    ensures row.id in m ==> m[row.id] == FoundOf(all[KeyOf(db, row)])
  {
    IdOfEntry(db, all, row);
    if row.id in m {
      var k :| k in all && all[k].data.id == row.id;
      var r :| r in db.versions && KeyOf(db, r) == k && r.id == all[k].data.id;
      assert SameVersion(r, row);
    }
  }

  lemma FiledEntered(db: Database, all: Entries, m: map<nat, Found>)
    requires IsSound(db, all) && IsFiled(all, m)
    ensures HasEntered(db, m, all.Keys)
  {
    hide IsFiled, IsSound, KeyOf, WellFormed;
    forall row | row in db.versions
      ensures row.id in m <==> KeyOf(db, row) in all
    {
      FiledRow(db, all, m, row);
    }
  }

  lemma FiledRows(db: Database, all: Entries, m: map<nat, Found>)
    requires IsSound(db, all) && IsFiled(all, m)
    ensures NamesRows(db, m) && HasTrueResults(db, m)
  {
    forall id | id in m
      ensures m[id].data.id == id && m[id].idDependencies == RecordedIds(m[id].dbDependencies)
      ensures IsTrueData(db, m[id].data)
      ensures exists row :: row in db.versions && row.id == id && KeyOf(db, row) == m[id].data.pkg
    {
      var k :| k in all && all[k].data.id == id;
    }
  }

  lemma FiledEdges(db: Database, all: Entries, m: map<nat, Found>)
    requires IsSound(db, all) && AllRecordedOrDead(db, all) && IsFiled(all, m)
    ensures HasAllEdgesOrNone(db, m)
  {
    hide IsFiled, WellFormed, Records, DeadEdgeBehind, KeyOf, IsTrueData;
    forall row | row in db.versions && row.id in m && !Records(db, row, m[row.id].dbDependencies)
      ensures m[row.id].dbDependencies == map[] && DeadEdgeBehind(db, row)
    {
      FiledRow(db, all, m, row);
      var e := all[KeyOf(db, row)];
      assert HasAllOrNone(db, e) && IsRecordedOrDead(db, e);
      if e.dbDependencies != map[] {
        var r :| r in db.versions && KeyOf(db, r) == e.data.pkg && Records(db, r, e.dbDependencies);
        KeyOfIsInjective(db, r, row);
      }
      var r :| r in db.versions && KeyOf(db, r) == e.data.pkg
               && (Records(db, r, e.dbDependencies) || DeadEdgeBehind(db, r));
      KeyOfIsInjective(db, r, row);
    }
  }

  lemma FiledDependencies(db: Database, all: Entries, m: map<nat, Found>)
    requires IsSound(db, all) && IsFiled(all, m)
    ensures HasDependencies(m)
  {
    forall id, p | id in m && p in m[id].dbDependencies
      ensures var d := m[id].dbDependencies[p]; d.id in m && m[d.id].data.pkg == d.pkg
    {
      var k :| k in all && all[k].data.id == id;
      assert KnowsDependencies(all, all[k]);
    }
  }

  lemma FiledMarks(db: Database, all: Entries, m: map<nat, Found>, roots: set<VersionRow>)
    requires IsWalkOf(db, all, roots) && IsFiled(all, m)
    ensures IsMarked(db, m, roots)
  {
    hide IsFiled, IsSound, CoversRoots, WellFormed;
    forall row | row in db.versions && row.id in m
      ensures DIRECT_DEPENDENCY in m[row.id].data.flags <==> row in roots
    {
      FiledRow(db, all, m, row);
    }
  }

  lemma FiledReached(db: Database, all: Entries, m: map<nat, Found>, roots: set<VersionRow>)
    requires IsWalkOf(db, all, roots) && IsFiled(all, m)
    ensures IsReached(db, m, roots)
  {
    hide IsWalkOf, IsFiled, ReachedFrom, WellFormed, KeyOf;
    WalkIsSound(db, all, roots);
    forall row | row in roots
      ensures row.id in m
    {
      RootIsRow(db, all, roots, row);
      FiledRow(db, all, m, row);
    }
    forall row | row in db.versions && row.id in m
      ensures ReachedFrom(Succ(db), roots, row)
    {
      FiledRow(db, all, m, row);
      EntryIsReached(db, all, roots, row);
    }
  }

  lemma EntryIsReached(db: Database, all: Entries, roots: set<VersionRow>, row: VersionRow)
    requires IsWalkOf(db, all, roots) && row in db.versions && KeyOf(db, row) in all
    ensures ReachedFrom(Succ(db), roots, row)
  {
    hide ReachedKeyFrom, ReachedFrom, WellFormed, KeyOf, IsSound;
    assert ReachedKeyFrom(db, roots, KeyOf(db, row));
    RowOfReachedKey(db, roots, row);
  }

  lemma RowOfReachedKey(db: Database, roots: set<VersionRow>, row: VersionRow)
    requires row in db.versions && ReachedKeyFrom(db, roots, KeyOf(db, row))
    ensures ReachedFrom(Succ(db), roots, row)
  {
    var a :| a in roots && ReachedKey(db, a, KeyOf(db, row));
    var r :| r in db.versions && KeyOf(db, r) == KeyOf(db, row) && Reaches(Succ(db), a, r);
    KeyOfIsInjective(db, r, row);
  }

  /** Without dead edges the results are closed under the edges, hence all that is reached. */
  lemma CompleteIsExact(db: Database, all: Entries, m: map<nat, Found>, roots: set<VersionRow>)
    requires IsWalkOf(db, all, roots) && IsFiled(all, m) && !SomeDead(db, roots)
    requires IsReached(db, m, roots)
    ensures IsExact(db, m, roots)
  {
    hide IsWalkOf, IsFiled, SomeDead, Records, Targets, WellFormed, ReachedFrom;
    var found := set row | row in db.versions && row.id in m;
    forall row | row in found
      ensures Records(db, row, m[row.id].dbDependencies) && Succ(db)(row) <= found
    {
      FoundIsComplete(db, all, m, roots, row);
    }
    assert IsClosed(Succ(db), found);
    forall row | row in roots
      ensures row in found
    {
      RootIsRow(db, all, roots, row);
    }
    ClosedAndReached(Succ(db), roots, found);
  }

  lemma RootIsRow(db: Database, all: Entries, roots: set<VersionRow>, row: VersionRow)
    requires IsWalkOf(db, all, roots) && row in roots
    ensures row in db.versions && KeyOf(db, row) in all
  {
  }

  lemma FoundIsComplete(db: Database, all: Entries, m: map<nat, Found>, roots: set<VersionRow>, row: VersionRow)
    requires IsWalkOf(db, all, roots) && IsFiled(all, m) && !SomeDead(db, roots)
    requires row in db.versions && row.id in m
    ensures Records(db, row, m[row.id].dbDependencies)
    ensures forall t | t in Targets(db, row) :: t in db.versions && t.id in m
  {
    hide IsFiled, CoversRoots, IsDirectExactly, Records, IsSound;
    FiledRow(db, all, m, row);
    assert IsComplete(db, all, row);
    TargetsAreRows(db, row);
    forall t | t in Targets(db, row)
      ensures t.id in m
    {
      FiledRow(db, all, m, t);
    }
  }

  /** A dead edge behind a root is an edge of a reached package that cannot be recorded. */
  lemma DeadIsNotExact(db: Database, m: map<nat, Found>, roots: set<VersionRow>)
    requires SomeDead(db, roots) && forall row | row in roots :: row in db.versions
    ensures !IsExact(db, m, roots)
  {
    var a :| a in roots && DeadEdgeBehind(db, a);
    var w :| Reaches(Succ(db), a, w) && HasDeadEdge(db, w);
    ReachedAreRows(db, a, w);
    assert ReachedFrom(Succ(db), roots, w);
  }
}
