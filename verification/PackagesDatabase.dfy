/** The tables of the packages database and the queries that pick rows from them. */
module PackagesDatabase {
  import opened Results
  import opened Versions

  /** A set of flag bits; the numbers are those of enum ProjectFlag. */
  type Flags = set<nat>
  const DIRECT_DEPENDENCY: nat := 9

  datatype ProjectType = Library | Executable | RootProject | Directory

  datatype ProjectRow = ProjectRow(id: nat, path: string, kind: ProjectType, flags: Flags)
  datatype VersionRow = VersionRow(id: nat, projectId: nat, version: VersionKey, flags: Flags, hash: string)
  datatype DependencyRow = DependencyRow(versionId: nat, projectId: nat, version: Version, flags: Flags)

  datatype Tables = Tables(
    projects: seq<ProjectRow>, versions: seq<VersionRow>, dependencies: seq<DependencyRow>)

  // ----- well-formed tables -----

  /** A row names a branch, or has three numbers that are not all zero. */
  predicate IsStoredVersion(k: VersionKey) {
    match k
    case BranchName(name) => IsBranchName(name)
    case Numbers(a, b, c) => 0 <= a && 0 <= b && 0 <= c && !(a == b == c == 0)
  }

  predicate SameProject(p: ProjectRow, q: ProjectRow) {
    p.id == q.id || p.path == q.path
  }

  predicate SameVersion(r: VersionRow, s: VersionRow) {
    r.id == s.id || (r.projectId == s.projectId && r.version == s.version)
  }

  predicate SameDependency(d: DependencyRow, e: DependencyRow) {
    d.versionId == e.versionId && d.projectId == e.projectId
  }

  ghost predicate HasProject(projects: seq<ProjectRow>, id: nat) {
    exists p :: p in projects && p.id == id
  }

  /** Ids are not zero, and the flag of responses is not stored. */
  predicate IsProjectRow(p: ProjectRow) {
    p.id != 0 && DIRECT_DEPENDENCY !in p.flags
  }

  ghost predicate IsVersionRow(projects: seq<ProjectRow>, r: VersionRow) {
    && r.id != 0 && DIRECT_DEPENDENCY !in r.flags
    && IsStoredVersion(r.version) && HasProject(projects, r.projectId)
  }

  ghost predicate IsDependencyRow(projects: seq<ProjectRow>, d: DependencyRow) {
    DIRECT_DEPENDENCY !in d.flags && HasProject(projects, d.projectId)
  }

  /** Primary keys and unique indices of the schema, one row per version of a project, foreign
      keys. The triggers keep the quantifiers from being used unless a proof asks for them. */
  ghost predicate WellFormed(db: Tables) {
    && (forall p, q {:trigger SameProject(p, q)} | p in db.projects && q in db.projects && SameProject(p, q) :: p == q)
    && (forall r, s {:trigger SameVersion(r, s)} | r in db.versions && s in db.versions && SameVersion(r, s) :: r == s)
    && (forall d, e {:trigger SameDependency(d, e)}
          | d in db.dependencies && e in db.dependencies && SameDependency(d, e) :: d == e)
    && (forall p {:trigger IsProjectRow(p)} | p in db.projects :: IsProjectRow(p))
    && (forall r {:trigger IsVersionRow(db.projects, r)} | r in db.versions :: IsVersionRow(db.projects, r))
    && (forall d {:trigger IsDependencyRow(db.projects, d)} | d in db.dependencies :: IsDependencyRow(db.projects, d))
  }

  /** The database: tables that satisfy their schema. */
  type Database = db: Tables | WellFormed(db) witness Tables([], [], [])

  // ----- queries -----

  /** select ... where keep(row), in table order. */
  function Select<T(!new)>(rows: seq<T>, keep: T -> bool): (r: seq<T>)
    ensures forall x :: x in r <==> x in rows && keep(x)
  {
    if rows == [] then []
    else
      var rest := Select(rows[1..], keep);
      if keep(rows[0]) then [rows[0]] + rest else rest
  }

  predicate KeyLess(a: VersionKey, b: VersionKey)
    requires a.Numbers? && b.Numbers?
  {
    NumbersLess(a.major, a.minor, a.patch, b.major, b.minor, b.patch)
  }

  /** order by major desc, minor desc, patch desc limit 1 */
  function Top(rows: seq<VersionRow>): (r: Option<VersionRow>)
    requires forall x | x in rows :: x.version.Numbers?
    ensures r.None? <==> rows == []
    ensures r.Some? ==> r.value in rows && forall x | x in rows :: !KeyLess(r.value.version, x.version)
  {
    if rows == [] then None
    else
      var rest := Top(rows[1..]);
      if rest.Some? && KeyLess(rows[0].version, rest.value.version) then rest else Some(rows[0])
  }

  // ----- the rule the version cascade implements -----

  /** A stored version as the exact version it is. */
  function Stored(k: VersionKey): Version {
    match k
    case BranchName(name) => Version(-1, -1, -1, name, Branch)
    case Numbers(a, b, c) => Version(a, b, c, "", Exact)
  }

  /** The row may answer the request: the very branch, or numbers the request can be. */
  predicate Answers(request: Version, row: VersionRow) {
    if request.IsBranch() then row.version == BranchName(request.branch)
    else row.version.Numbers? && request.CanBe(Stored(row.version))
  }

  /** The greatest row of the project that may answer the request. */
  ghost predicate IsBest(db: Database, projectId: nat, request: Version, row: VersionRow) {
    && row in db.versions && row.projectId == projectId && Answers(request, row)
    && forall x | x in db.versions && x.projectId == projectId && Answers(request, x) ::
         row.version.Numbers? && x.version.Numbers? ==> !KeyLess(row.version, x.version)
  }

  ghost function Resolve(db: Database, projectId: nat, request: Version): (r: Option<VersionRow>)
    ensures r.Some? ==> IsBest(db, projectId, request, r.value)
  {
    if row :| IsBest(db, projectId, request, row) then Some(row) else None
  }
}
