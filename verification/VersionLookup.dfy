/** The four-stage lookup of the version row that answers a request. */
module VersionLookup {
  import opened Results
  import opened Versions
  import opened PackagesDatabase

  datatype LookupError = NoSuchVersion(request: Version, projectId: nat)

  /** What a successful lookup hands back: the row's id, the request completed with the row's
      numbers, the flags merged with the row's flags, and the row's hash. */
  datatype Lookup = Lookup(id: nat, version: Version, flags: Flags, hash: string)

  function Completed(request: Version, row: VersionRow): Version {
    if request.IsBranch() || row.version.BranchName? then request
    else request.(major := row.version.major, minor := row.version.minor, patch := row.version.patch)
  }

  function LookupOf(request: Version, flags: Flags, row: VersionRow): Lookup {
    Lookup(row.id, Completed(request, row), flags + row.flags, row.hash)
  }

  // ----- properties of the rule -----

  /** The version of the row comes before v: the first number that differs is smaller. */
  predicate IsOlder(row: VersionRow, v: Version) {
    && row.version.Numbers?
    && var Numbers(major, minor, patch) := row.version;
       || major < v.major
       || (major == v.major && minor < v.minor)
       || (major == v.major && minor == v.minor && patch < v.patch)
  }

  /** The answer to a request for numbers is newer than every other row that may answer. */
  lemma AnswerIsNewest(db: Database, projectId: nat, request: Version)
    requires Resolve(db, projectId, request).Some? && !request.IsBranch()
    ensures var row := Resolve(db, projectId, request).value;
            && row.version.Numbers?
            && forall x | x in db.versions && x.projectId == projectId && Answers(request, x) && x != row ::
                 IsOlder(x, Completed(request, row))
  {
    var row := Resolve(db, projectId, request).value;
    forall x | x in db.versions && x.projectId == projectId && Answers(request, x) && x != row
      ensures IsOlder(x, Completed(request, row))
    {
      assert SameVersion(x, row) ==> x == row;
      assert !KeyLess(row.version, x.version);
    }
  }

  lemma BestIsUnique(db: Database, projectId: nat, request: Version, r: VersionRow, s: VersionRow)
    requires IsBest(db, projectId, request, r) && IsBest(db, projectId, request, s)
    ensures r == s
  {
    if !request.IsBranch() {
      assert !KeyLess(r.version, s.version) && !KeyLess(s.version, r.version);
    }
    assert SameVersion(r, s);
  }

  lemma ResolveIsBest(db: Database, projectId: nat, request: Version, row: VersionRow)
    requires IsBest(db, projectId, request, row)
    ensures Resolve(db, projectId, request) == Some(row)
  {
    BestIsUnique(db, projectId, request, Resolve(db, projectId, request).value, row);
  }

  /** Some row answers exactly when some row may answer. */
  lemma ResolvesIffAnswered(db: Database, projectId: nat, request: Version)
    ensures Resolve(db, projectId, request).Some?
       <==> exists row :: row in db.versions && row.projectId == projectId && Answers(request, row)
  {
    var rows := Select(db.versions, (r: VersionRow) => r.projectId == projectId && Answers(request, r));
    if row :| row in db.versions && row.projectId == projectId && Answers(request, row) {
      assert row in rows;
      if request.IsBranch() {
        ResolveIsBest(db, projectId, request, row);
      } else {
        ResolveIsBest(db, projectId, request, Top(rows).value);
      }
    }
  }

  /** Asking again for the version that was found finds the same row. */
  lemma ResolveAgain(db: Database, projectId: nat, request: Version)
    requires Resolve(db, projectId, request).Some?
    ensures var row := Resolve(db, projectId, request).value;
            Resolve(db, projectId, Completed(request, row)) == Some(row)
  {
    var row := Resolve(db, projectId, request).value;
    ResolveIsBest(db, projectId, Completed(request, row), row);
  }

  /** A new row leaves the answer alone or becomes the answer, and then it is the greater one. */
  lemma ResolveAfterInsert(db: Database, added: VersionRow, projectId: nat, request: Version)
    requires var bigger := db.(versions := db.versions + [added]); WellFormed(bigger) && added !in db.versions
    ensures var bigger := db.(versions := db.versions + [added]);
            var before, after := Resolve(db, projectId, request), Resolve(bigger, projectId, request);
            || after == before
            || (after == Some(added) && added.projectId == projectId && Answers(request, added)
                && (before.None? || (!request.IsBranch() && IsOlder(before.value, Stored(added.version)))))
  {
    var bigger := db.(versions := db.versions + [added]);
    ResolvesIffAnswered(db, projectId, request);
    ResolvesIffAnswered(bigger, projectId, request);
    var before, after := Resolve(db, projectId, request), Resolve(bigger, projectId, request);
    if after.Some? && after.value != added {
      ResolveIsBest(db, projectId, request, after.value);
    } else if after.Some? && before.Some? {
      var b := before.value;
      assert b in bigger.versions && b != added;
      assert IsBest(bigger, projectId, request, added);
      if request.IsBranch() {
        assert SameVersion(b, added);
      } else if !KeyLess(b.version, added.version) {
        assert b.version == added.version && SameVersion(b, added);
      }
    }
  }

  // ----- the stages of the lookup -----

  /** The rows are those of the project that keep() accepts. */
  ghost predicate Picks(db: Database, projectId: nat, keep: VersionRow -> bool, rows: seq<VersionRow>) {
    forall x :: x in rows <==> x in db.versions && x.projectId == projectId && keep(x)
  }

  /** When a query picks exactly the rows that may answer, its top row is the answer. */
  lemma TopIsAnswer(db: Database, projectId: nat, request: Version, rows: seq<VersionRow>)
    requires !request.IsBranch()
    requires Picks(db, projectId, (x: VersionRow) => Answers(request, x), rows)
    requires forall x | x in rows :: x.version.Numbers?
    ensures Resolve(db, projectId, request) == Top(rows)
  {
    ResolvesIffAnswered(db, projectId, request);
    if Top(rows).Some? {
      ResolveIsBest(db, projectId, request, Top(rows).value);
    }
  }

  predicate IsExactly(request: Version, x: VersionRow) {
    x.version == Numbers(request.major, request.minor, request.patch)
  }

  predicate HasMinor(request: Version, x: VersionRow) {
    x.version.Numbers? && x.version.major == request.major && x.version.minor == request.minor
  }

  predicate HasMajor(request: Version, x: VersionRow) {
    x.version.Numbers? && x.version.major == request.major
  }

  /** An exact row is the answer; without one, a request with a patch number has none. */
  lemma ExactStage(db: Database, projectId: nat, request: Version, rows: seq<VersionRow>)
    requires !request.IsBranch()
    requires Picks(db, projectId, (x: VersionRow) => IsExactly(request, x), rows)
    ensures |rows| > 0 ==> Resolve(db, projectId, request) == Some(rows[|rows| - 1])
    ensures |rows| == 0 && request.patch != -1 ==> Resolve(db, projectId, request).None?
  {
    if |rows| > 0 {
      var row := rows[|rows| - 1];
      assert row in rows && IsVersionRow(db.projects, row);
      ResolveIsBest(db, projectId, request, row);
    }
  }

  lemma MinorStage(db: Database, projectId: nat, request: Version, rows: seq<VersionRow>)
    requires !request.IsBranch() && request.patch == -1
    requires Picks(db, projectId, (x: VersionRow) => HasMinor(request, x), rows)
    ensures rows != [] ==> Resolve(db, projectId, request) == Top(rows)
    ensures rows == [] && request.minor != -1 ==> Resolve(db, projectId, request).None?
  {
    assert rows != [] ==> rows[0] in rows && IsVersionRow(db.projects, rows[0]);
    if rows != [] || request.minor != -1 {
      TopIsAnswer(db, projectId, request, rows);
    }
  }

  lemma MajorStage(db: Database, projectId: nat, request: Version, rows: seq<VersionRow>)
    requires !request.IsBranch() && request.patch == request.minor == -1
    requires Picks(db, projectId, (x: VersionRow) => HasMajor(request, x), rows)
    ensures rows != [] ==> Resolve(db, projectId, request) == Top(rows)
    ensures rows == [] && request.major != -1 ==> Resolve(db, projectId, request).None?
  {
    assert rows != [] ==> rows[0] in rows && IsVersionRow(db.projects, rows[0]);
    if rows != [] || request.major != -1 {
      TopIsAnswer(db, projectId, request, rows);
    }
  }

  /** Every other row that may answer is older than the version found. */
  ghost predicate IsNewest(db: Database, projectId: nat, request: Version, found: Lookup) {
    forall x | x in db.versions && x.projectId == projectId && Answers(request, x) && x.id != found.id ::
      IsOlder(x, found.version)
  }

  lemma FoundIsNewest(db: Database, projectId: nat, request: Version, givenFlags: Flags)
    requires !request.IsBranch()
    ensures Resolve(db, projectId, request).Some? ==>
              IsNewest(db, projectId, request, LookupOf(request, givenFlags, Resolve(db, projectId, request).value))
  {
    if Resolve(db, projectId, request).Some? {
      AnswerIsNewest(db, projectId, request);
    }
  }

  // ----- the lookup -----

  /** Three ever wider queries follow the exact one; each is tried only if the number it leaves
      open is not given in the request. */
  method GetExactProjectVersionId(db: Database, projectId: nat, request: Version, givenFlags: Flags)
    returns (r: Result<Lookup, LookupError>)
    ensures r == match Resolve(db, projectId, request)
                 case None => Failure(NoSuchVersion(request, projectId))
                 case Some(row) => Success(LookupOf(request, givenFlags, row))
    ensures r.Success? && !request.IsBranch() ==> IsNewest(db, projectId, request, r.value)
  {
    if !request.IsBranch() {
      r := LookUpNumbers(db, projectId, request, givenFlags);
    } else {
      var rows := Select(db.versions,
                         (x: VersionRow) => x.projectId == projectId && x.version == BranchName(request.branch));
      ResolvesIffAnswered(db, projectId, request);
      if |rows| == 0 {
        return Failure(NoSuchVersion(request, projectId));
      }
      var row := rows[|rows| - 1];
      assert row in rows;
      ResolveIsBest(db, projectId, request, row);
      return Success(Lookup(row.id, request, givenFlags + row.flags, row.hash));
    }
  }

  method LookUpNumbers(db: Database, projectId: nat, request: Version, givenFlags: Flags)
    returns (r: Result<Lookup, LookupError>)
    requires !request.IsBranch()
    ensures r == match Resolve(db, projectId, request)
                 case None => Failure(NoSuchVersion(request, projectId))
                 case Some(row) => Success(LookupOf(request, givenFlags, row))
    ensures r.Success? && !request.IsBranch() ==> IsNewest(db, projectId, request, r.value)
  {
    FoundIsNewest(db, projectId, request, givenFlags);
    hide IsNewest;
    var version, flags := request, givenFlags;
    var exact := Select(db.versions, (x: VersionRow) => x.projectId == projectId && IsExactly(version, x));
    ExactStage(db, projectId, request, exact);
    if |exact| > 0 {
      var row := exact[|exact| - 1];
      assert row in exact;
      return Success(Lookup(row.id, version, flags + row.flags, row.hash));
    }
    if version.patch != -1 {
      return Failure(NoSuchVersion(version, projectId));
    }

    var sameMinor := Select(db.versions, (x: VersionRow) => x.projectId == projectId && HasMinor(version, x));
    MinorStage(db, projectId, request, sameMinor);
    var top := Top(sameMinor);
    if top.Some? {
      version := version.(patch := top.value.version.patch);
      return Success(Lookup(top.value.id, version, flags + top.value.flags, top.value.hash));
    }
    if version.minor != -1 {
      return Failure(NoSuchVersion(version, projectId));
    }

    var sameMajor := Select(db.versions, (x: VersionRow) => x.projectId == projectId && HasMajor(version, x));
    MajorStage(db, projectId, request, sameMajor);
    top := Top(sameMajor);
    if top.Some? {
      version := version.(minor := top.value.version.minor, patch := top.value.version.patch);
      return Success(Lookup(top.value.id, version, flags + top.value.flags, top.value.hash));
    }
    if version.major != -1 {
      return Failure(NoSuchVersion(version, projectId));
    }

    var numbered := Select(db.versions, (x: VersionRow) => x.projectId == projectId && x.version.Numbers?);
    TopIsAnswer(db, projectId, request, numbered);
    top := Top(numbered);
    if top.Some? {
      var numbers := top.value.version;
      version := version.(major := numbers.major, minor := numbers.minor, patch := numbers.patch);
      return Success(Lookup(top.value.id, version, flags + top.value.flags, top.value.hash));
    }
    return Failure(NoSuchVersion(version, projectId));
  }
}
