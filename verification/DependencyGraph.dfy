/** The graph the dependency walk explores: version rows, joined by resolved dependency rows. */
module DependencyGraph {
  import opened Results
  import opened Graphs
  import opened Versions
  import opened PackagesDatabase
  import opened VersionLookup

  /** The identity of a package: operator== compares path and version, and versions ignore
      their type. */
  datatype Package = Package(path: string, version: VersionKey)

  /** A package with the data the database has on it. */
  datatype PackageData = PackageData(pkg: Package, id: nat, flags: Flags, hash: string)

  function FindProject(projects: seq<ProjectRow>, id: nat): (r: Option<ProjectRow>)
    ensures r.Some? ==> r.value in projects && r.value.id == id
    ensures r.None? ==> forall p | p in projects :: p.id != id
  {
    if projects == [] then None
    else if projects[0].id == id then Some(projects[0])
    else FindProject(projects[1..], id)
  }

  function PathOf(db: Database, projectId: nat): string {
    match FindProject(db.projects, projectId)
    case Some(p) => p.path
    case None => ""
  }

  function KeyOf(db: Database, row: VersionRow): Package {
    Package(PathOf(db, row.projectId), row.version)
  }

  lemma PathOfIsInjective(db: Database, a: nat, b: nat)
    requires HasProject(db.projects, a) && HasProject(db.projects, b)
    requires PathOf(db, a) == PathOf(db, b)
    ensures a == b
  {
    assert SameProject(FindProject(db.projects, a).value, FindProject(db.projects, b).value);
  }

  /** The package that a version row stands for determines the row. */
  lemma KeyOfIsInjective(db: Database, r: VersionRow, s: VersionRow)
    requires r in db.versions && s in db.versions
    requires KeyOf(db, r) == KeyOf(db, s)
    ensures r == s
  {
    assert IsVersionRow(db.projects, r) && IsVersionRow(db.projects, s);
    PathOfIsInjective(db, r.projectId, s.projectId);
    assert SameVersion(r, s);
  }

  /** select ... from ProjectVersionDependencies where project_version_id = id */
  function EdgesOf(db: Database, versionId: nat): (r: seq<DependencyRow>)
    ensures forall d :: d in r <==> d in db.dependencies && d.versionId == versionId
  {
    Select(db.dependencies, (d: DependencyRow) => d.versionId == versionId)
  }

  /** The rows that the package's dependencies resolve to. */
  ghost function Targets(db: Database, row: VersionRow): set<VersionRow> {
    set e | e in EdgesOf(db, row.id) && Resolve(db, e.projectId, e.version).Some?
        :: Resolve(db, e.projectId, e.version).value
  }

  ghost function Succ(db: Database): VersionRow -> set<VersionRow> {
    row => Targets(db, row)
  }

  /** Some dependency of the package has no version that answers it. */
  ghost predicate HasDeadEdge(db: Database, row: VersionRow) {
    exists e :: e in EdgesOf(db, row.id) && Resolve(db, e.projectId, e.version).None?
  }

  lemma TargetsAreRows(db: Database, row: VersionRow)
    ensures forall t | t in Targets(db, row) :: t in db.versions
  {
  }

  lemma {:induction false} ReachedAreRows(db: Database, a: VersionRow, b: VersionRow)
    requires a in db.versions && Reaches(Succ(db), a, b)
    ensures b in db.versions
  {
    var rows := set r | r in db.versions;
    assert ReachedFrom(Succ(db), {a}, b);
    ClosedHoldsReached(Succ(db), {a}, rows, b);
  }

  function ProjectFlags(db: Database, projectId: nat): Flags {
    match FindProject(db.projects, projectId)
    case Some(p) => p.flags
    case None => {}
  }

  /** What the database has on the package a dependency row resolves to: the project's, the
      dependency's and the version's flags are merged. */
  ghost function DataOf(db: Database, e: DependencyRow): PackageData
    requires Resolve(db, e.projectId, e.version).Some?
  {
    var row := Resolve(db, e.projectId, e.version).value;
    PackageData(KeyOf(db, row), row.id, ProjectFlags(db, e.projectId) + e.flags + row.flags, row.hash)
  }

  /** The flags of the project and of the version, and either the mark of a request or the flags
      of one of the dependencies that resolve to the row. */
  ghost predicate HasMergedFlags(db: Database, row: VersionRow, flags: Flags) {
    if DIRECT_DEPENDENCY in flags then flags == ProjectFlags(db, row.projectId) + {DIRECT_DEPENDENCY} + row.flags
    else exists e :: e in db.dependencies && Resolve(db, e.projectId, e.version) == Some(row)
                     && flags == ProjectFlags(db, row.projectId) + e.flags + row.flags
  }

  /** The data is what the database has on a version row. */
  ghost predicate IsTrueData(db: Database, data: PackageData) {
    exists row :: row in db.versions && KeyOf(db, row) == data.pkg && row.id == data.id
                  && row.hash == data.hash && HasMergedFlags(db, row, data.flags)
  }

  /** The data that a successful lookup gives, put together, is the data of the dependency. */
  lemma DataFromLookup(db: Database, row: VersionRow, e: DependencyRow)
    requires e in EdgesOf(db, row.id) && Resolve(db, e.projectId, e.version).Some?
    ensures var target := Resolve(db, e.projectId, e.version).value;
            var found := LookupOf(e.version, ProjectFlags(db, e.projectId) + e.flags, target);
            && target in db.versions && target in Targets(db, row)
            && PackageData(Package(PathOf(db, e.projectId), found.version.Key()), found.id, found.flags, found.hash)
               == DataOf(db, e)
            && DataOf(db, e).pkg == KeyOf(db, target) && DataOf(db, e).pkg.path == PathOf(db, e.projectId)
            && DataOf(db, e).id == target.id && DIRECT_DEPENDENCY !in DataOf(db, e).flags
            && IsTrueData(db, DataOf(db, e))
  {
    var target := Resolve(db, e.projectId, e.version).value;
    assert IsVersionRow(db.projects, target) && IsDependencyRow(db.projects, e);
    assert IsProjectRow(FindProject(db.projects, e.projectId).value);
    assert e in db.dependencies && target.projectId == e.projectId;
    assert HasMergedFlags(db, target, DataOf(db, e).flags);
  }

  /** The map holds the edges, each resolved and under the path it leads to, and nothing else. */
  ghost predicate RecordsEdges(db: Database, edges: seq<DependencyRow>, m: map<string, PackageData>) {
    && (forall e | e in edges ::
          && Resolve(db, e.projectId, e.version).Some?
          && PathOf(db, e.projectId) in m && m[PathOf(db, e.projectId)] == DataOf(db, e))
    && (forall p | p in m :: exists e :: e in edges && PathOf(db, e.projectId) == p)
  }

  /** The map is the record of the package's edges; in particular every edge resolves. */
  ghost predicate Records(db: Database, row: VersionRow, m: map<string, PackageData>) {
    RecordsEdges(db, EdgesOf(db, row.id), m)
  }

  /** Two dependencies of one package lead to different paths. */
  lemma EdgePathsDiffer(db: Database, e: DependencyRow, f: DependencyRow)
    requires e in db.dependencies && f in db.dependencies && e.versionId == f.versionId
    ensures PathOf(db, e.projectId) == PathOf(db, f.projectId) ==> e == f
  {
    if PathOf(db, e.projectId) == PathOf(db, f.projectId) {
      assert IsDependencyRow(db.projects, e) && IsDependencyRow(db.projects, f) && (SameDependency(e, f) ==> e == f);
      PathOfIsInjective(db, e.projectId, f.projectId);
    }
  }

  lemma RecordOneMore(db: Database, versionId: nat, i: nat, m: map<string, PackageData>)
    requires i < |EdgesOf(db, versionId)| && RecordsEdges(db, EdgesOf(db, versionId)[..i], m)
    requires var e := EdgesOf(db, versionId)[i]; Resolve(db, e.projectId, e.version).Some?
    ensures var e := EdgesOf(db, versionId)[i];
            RecordsEdges(db, EdgesOf(db, versionId)[..i + 1], m[PathOf(db, e.projectId) := DataOf(db, e)])
  {
    hide WellFormed, Resolve, DataOf, PathOf;
    var edges := EdgesOf(db, versionId);
    var e := edges[i];
    assert e in edges && edges[..i + 1] == edges[..i] + [e];
    forall f | f in edges[..i]
      ensures PathOf(db, f.projectId) == PathOf(db, e.projectId) ==> f == e
    {
      assert f in edges;
      EdgePathsDiffer(db, e, f);
    }
  }

  ghost function TargetIds(db: Database, row: VersionRow): set<nat> {
    set t | t in Targets(db, row) :: t.id
  }

  ghost function RecordedIds(m: map<string, PackageData>): set<nat> {
    set p | p in m :: m[p].id
  }

  /** The recorded ids are the ids of the rows the edges lead to. */
  lemma RecordedIdsAreTargets(db: Database, row: VersionRow, m: map<string, PackageData>)
    requires Records(db, row, m)
    ensures RecordedIds(m) == TargetIds(db, row)
  {
    forall id | id in RecordedIds(m)
      ensures id in TargetIds(db, row)
    {
      var p :| p in m && m[p].id == id;
      var e :| e in EdgesOf(db, row.id) && PathOf(db, e.projectId) == p;
      assert Resolve(db, e.projectId, e.version).value in Targets(db, row);
    }
    forall id | id in TargetIds(db, row)
      ensures id in RecordedIds(m)
    {
      var t :| t in Targets(db, row) && t.id == id;
      var e :| e in EdgesOf(db, row.id) && Resolve(db, e.projectId, e.version) == Some(t);
      assert PathOf(db, e.projectId) in m && m[PathOf(db, e.projectId)] == DataOf(db, e);
    }
  }
}
