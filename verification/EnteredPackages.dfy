/** The dependency walk reduced to the packages it enters: which ones they are, and whether every
    lookup on the way finds a version. */
module EnteredPackages {
  import opened Results
  import opened Graphs
  import opened Versions
  import opened PackagesDatabase
  import opened VersionLookup
  import opened DependencyGraph

  /** All packages there are: the bound of the walk. */
  ghost function Universe(db: Database): set<Package> {
    set row | row in db.versions :: KeyOf(db, row)
  }

  lemma SmallerSubset<T>(a: set<T>, b: set<T>, x: T)
    requires a <= b && x in b && x !in a
    ensures |a| < |b|
  {
    assert b == a + (b - a);
    assert x in b - a;
  }

  lemma NotLarger<T>(a: set<T>, b: set<T>)
    requires a <= b
    ensures |a| <= |b|
  {
    assert b == a + (b - a);
  }

  /** How a package came to be entered, by a request or by a dependency that led to it for the first
      time, and whether its own dependencies were then recorded, or their walk has failed. */
  datatype Meeting = Requested(recorded: bool) | MetBy(e: DependencyRow, recorded: bool)

  /** What is entered after a walk, how each package was met that it entered, and what kept the walk
      from coming to its end. */
  datatype Outcome<E> = Outcome(entered: set<Package>, met: map<Package, Meeting>, failure: Option<E>)
  {
    predicate Succeeds() { failure.None? }
  }

  lemma FewerLeft(db: Database, entered: set<Package>, row: VersionRow)
    requires row in db.versions && KeyOf(db, row) !in entered
    ensures |Universe(db) - (entered + {KeyOf(db, row)})| < |Universe(db) - entered|
  {
    SmallerSubset(Universe(db) - (entered + {KeyOf(db, row)}), Universe(db) - entered, KeyOf(db, row));
  }

  /** A package met for the first time is entered before its dependencies are. */
  ghost function EnterEdge(db: Database, entered: set<Package>, e: DependencyRow): (r: Outcome<LookupError>)
    ensures entered <= r.entered && r.met.Keys == r.entered - entered
    decreases |Universe(db) - entered|, 0
  {
    match Resolve(db, e.projectId, e.version)
    case None => Outcome(entered, map[], Some(NoSuchVersion(e.version, e.projectId)))
    case Some(row) =>
      if KeyOf(db, row) in entered then Outcome(entered, map[], None)
      else
        FewerLeft(db, entered, row);
        var behind := EnterEdges(db, entered + {KeyOf(db, row)}, EdgesOf(db, row.id));
        Outcome(behind.entered, behind.met[KeyOf(db, row) := MetBy(e, behind.Succeeds())], behind.failure)
  }

  /** One dependency after the other, up to the first that fails. */
  ghost function EnterEdges(db: Database, entered: set<Package>, edges: seq<DependencyRow>): (r: Outcome<LookupError>)
    ensures entered <= r.entered && r.met.Keys == r.entered - entered
    decreases |Universe(db) - entered|, 1 + |edges|
  {
    if edges == [] then Outcome(entered, map[], None)
    else
      var first := EnterEdge(db, entered, edges[0]);
      if !first.Succeeds() then first
      else
        NotLarger(Universe(db) - first.entered, Universe(db) - entered);
        After(first.met, EnterEdges(db, first.entered, edges[1..]))
  }

  /** What was met earlier is added to what a walk has met. */
  ghost function After<E>(met: map<Package, Meeting>, o: Outcome<E>): Outcome<E> {
    Outcome(o.entered, met + o.met, o.failure)
  }

  /** A requested package is entered anew. */
  ghost function EnterProject(db: Database, entered: set<Package>, projectId: nat, version: Version):
    (r: Outcome<LookupError>)
    ensures entered <= r.entered
  {
    match Resolve(db, projectId, version)
    case None => Outcome(entered, map[], Some(NoSuchVersion(version, projectId)))
    case Some(row) =>
      var behind := EnterEdges(db, entered + {KeyOf(db, row)}, EdgesOf(db, row.id));
      Outcome(behind.entered, behind.met[KeyOf(db, row) := Requested(behind.Succeeds())], behind.failure)
  }

  // ----- by which dependencies packages are met -----

  /** The dependency is one of a package that has been entered. */
  ghost predicate IsOfEntered(db: Database, entered: set<Package>, e: DependencyRow) {
    exists owner :: owner in db.versions && KeyOf(db, owner) in entered && e in EdgesOf(db, owner.id)
  }

  /** Unless it was requested, each package was met by a dependency of an entered package. */
  ghost predicate AreMetInside(db: Database, met: map<Package, Meeting>, entered: set<Package>) {
    forall k | k in met && met[k].MetBy? :: IsOfEntered(db, entered, met[k].e)
  }

  lemma OfMoreEntered(db: Database, few: set<Package>, more: set<Package>)
    requires few <= more
    ensures forall e | IsOfEntered(db, few, e) :: IsOfEntered(db, more, e)
    ensures forall met | AreMetInside(db, met, few) :: AreMetInside(db, met, more)
  {
    hide EdgesOf, Resolve, KeyOf, WellFormed;
  }

  lemma {:induction false} EdgeMeetsInside(db: Database, entered: set<Package>, e: DependencyRow)
    requires IsOfEntered(db, entered, e)
    ensures var o := EnterEdge(db, entered, e); AreMetInside(db, o.met, o.entered)
    decreases |Universe(db) - entered|, 0
  {
    hide IsOfEntered, EdgesOf, KeyOf, WellFormed;
    if Resolve(db, e.projectId, e.version).Some? {
      var row := Resolve(db, e.projectId, e.version).value;
      if KeyOf(db, row) !in entered {
        FewerLeft(db, entered, row);
        EdgesAreOf(db, entered + {KeyOf(db, row)}, row);
        EdgesMeetInside(db, entered + {KeyOf(db, row)}, EdgesOf(db, row.id));
        OfMoreEntered(db, entered, EnterEdge(db, entered, e).entered);
      }
    }
  }

  lemma EdgesAreOf(db: Database, entered: set<Package>, row: VersionRow)
    requires row in db.versions && KeyOf(db, row) in entered
    ensures forall e | e in EdgesOf(db, row.id) :: IsOfEntered(db, entered, e)
  {
  }

  lemma {:induction false} EdgesMeetInside(db: Database, entered: set<Package>, edges: seq<DependencyRow>)
    requires forall e | e in edges :: IsOfEntered(db, entered, e)
    ensures var o := EnterEdges(db, entered, edges); AreMetInside(db, o.met, o.entered)
    decreases |Universe(db) - entered|, 1 + |edges|
  {
    hide IsOfEntered, EdgesOf, KeyOf, WellFormed, EnterEdge;
    if edges != [] {
      var first := EnterEdge(db, entered, edges[0]);
      assert edges[0] in edges && forall e | e in edges[1..] :: e in edges;
      EdgeMeetsInside(db, entered, edges[0]);
      if first.Succeeds() {
        NotLarger(Universe(db) - first.entered, Universe(db) - entered);
        OfMoreEntered(db, entered, first.entered);
        EdgesMeetInside(db, first.entered, edges[1..]);
        OfMoreEntered(db, first.entered, EnterEdges(db, entered, edges).entered);
      }
    }
  }

  lemma ProjectMeetsInside(db: Database, entered: set<Package>, projectId: nat, version: Version)
    ensures var o := EnterProject(db, entered, projectId, version); AreMetInside(db, o.met, o.entered)
  {
    if Resolve(db, projectId, version).Some? {
      var row := Resolve(db, projectId, version).value;
      EdgesAreOf(db, entered + {KeyOf(db, row)}, row);
      EdgesMeetInside(db, entered + {KeyOf(db, row)}, EdgesOf(db, row.id));
    }
  }

  // ----- why the walk fails -----

  /** The error of a walk names a lookup that no version answers. */
  ghost predicate IsDueTo(db: Database, failure: Option<LookupError>) {
    failure.Some? ==> Resolve(db, failure.value.projectId, failure.value.request).None?
  }

  lemma {:induction false} EdgeFailureIsDue(db: Database, entered: set<Package>, e: DependencyRow)
    ensures IsDueTo(db, EnterEdge(db, entered, e).failure)
    decreases |Universe(db) - entered|, 0
  {
    if Resolve(db, e.projectId, e.version).Some? {
      var row := Resolve(db, e.projectId, e.version).value;
      if KeyOf(db, row) !in entered {
        FewerLeft(db, entered, row);
        EdgesFailureIsDue(db, entered + {KeyOf(db, row)}, EdgesOf(db, row.id));
      }
    }
  }

  lemma {:induction false} EdgesFailureIsDue(db: Database, entered: set<Package>, edges: seq<DependencyRow>)
    ensures IsDueTo(db, EnterEdges(db, entered, edges).failure)
    decreases |Universe(db) - entered|, 1 + |edges|
  {
    hide EnterEdge, IsDueTo;
    NoFailureIsDue(db);
    if edges != [] {
      var first := EnterEdge(db, entered, edges[0]);
      EdgeFailureIsDue(db, entered, edges[0]);
      NotLarger(Universe(db) - first.entered, Universe(db) - entered);
      EdgesFailureIsDue(db, first.entered, edges[1..]);
    }
  }

  lemma NoFailureIsDue(db: Database)
    ensures IsDueTo(db, None)
  {
  }

  lemma ProjectFailureIsDue(db: Database, entered: set<Package>, projectId: nat, version: Version)
    ensures IsDueTo(db, EnterProject(db, entered, projectId, version).failure)
  {
    if Resolve(db, projectId, version).Some? {
      var row := Resolve(db, projectId, version).value;
      EdgesFailureIsDue(db, entered + {KeyOf(db, row)}, EdgesOf(db, row.id));
    }
  }

  // ----- when the walk succeeds -----

  /** The edges that are left when nothing is looked for behind packages entered before. */
  ghost function NewSucc(db: Database, entered: set<Package>): VersionRow -> set<VersionRow> {
    row => if KeyOf(db, row) in entered then {} else Targets(db, row)
  }

  /** A dependency without a version is met behind the row, at a package not entered before. */
  ghost predicate FailsBehind(db: Database, entered: set<Package>, row: VersionRow) {
    exists w :: Reaches(NewSucc(db, entered), row, w) && KeyOf(db, w) !in entered && HasDeadEdge(db, w)
  }

  ghost predicate Fails(db: Database, entered: set<Package>, e: DependencyRow) {
    Resolve(db, e.projectId, e.version).None? || FailsBehind(db, entered, Resolve(db, e.projectId, e.version).value)
  }

  /** The new packages have all their dependencies entered. */
  ghost predicate IsSettled(db: Database, entered: set<Package>, after: set<Package>) {
    forall row | row in db.versions && KeyOf(db, row) in after && KeyOf(db, row) !in entered ::
      AreEntered(db, EdgesOf(db, row.id), after)
  }

  ghost predicate AreEntered(db: Database, edges: seq<DependencyRow>, after: set<Package>) {
    forall e | e in edges ::
      Resolve(db, e.projectId, e.version).Some? && KeyOf(db, Resolve(db, e.projectId, e.version).value) in after
  }

  lemma {:induction false} EdgeSucceeds(db: Database, entered: set<Package>, e: DependencyRow)
    requires EnterEdge(db, entered, e).Succeeds()
    ensures IsSettled(db, entered, EnterEdge(db, entered, e).entered)
    ensures AreEntered(db, [e], EnterEdge(db, entered, e).entered)
    decreases |Universe(db) - entered|, 0
  {
    var row := Resolve(db, e.projectId, e.version).value;
    if KeyOf(db, row) !in entered {
      FewerLeft(db, entered, row);
      EdgesSucceed(db, entered + {KeyOf(db, row)}, EdgesOf(db, row.id));
      OnlyRow(db, row);
    }
  }

  lemma OnlyRow(db: Database, row: VersionRow)
    requires row in db.versions
    ensures forall r | r in db.versions && KeyOf(db, r) == KeyOf(db, row) :: r == row
  {
    forall r | r in db.versions && KeyOf(db, r) == KeyOf(db, row)
      ensures r == row
    {
      KeyOfIsInjective(db, r, row);
    }
  }

  lemma {:induction false} EdgesSucceed(db: Database, entered: set<Package>, edges: seq<DependencyRow>)
    requires EnterEdges(db, entered, edges).Succeeds()
    ensures IsSettled(db, entered, EnterEdges(db, entered, edges).entered)
    ensures AreEntered(db, edges, EnterEdges(db, entered, edges).entered)
    decreases |Universe(db) - entered|, 1 + |edges|
  {
    hide WellFormed, KeyOf, EnterEdge;
    if edges != [] {
      var first := EnterEdge(db, entered, edges[0]);
      EdgeSucceeds(db, entered, edges[0]);
      NotLarger(Universe(db) - first.entered, Universe(db) - entered);
      EdgesSucceed(db, first.entered, edges[1..]);
      assert edges == [edges[0]] + edges[1..];
    }
  }

  /** Behind entered rows, nothing new is left and nothing fails. */
  lemma SettledDoesNotFail(db: Database, entered: set<Package>, after: set<Package>, row: VersionRow)
    requires entered <= after && IsSettled(db, entered, after) && row in db.versions && KeyOf(db, row) in after
    ensures !FailsBehind(db, entered, row)
  {
    var succ := NewSucc(db, entered);
    var s := set r | r in db.versions && KeyOf(db, r) in after;
    forall r | r in s
      ensures succ(r) <= s
      ensures KeyOf(db, r) !in entered ==> !HasDeadEdge(db, r)
    {
      if KeyOf(db, r) !in entered {
        assert AreEntered(db, EdgesOf(db, r.id), after);
        TargetsAreRows(db, r);
      }
    }
    forall w | Reaches(succ, row, w)
      ensures w in s
    {
      assert ReachedFrom(succ, {row}, w);
      ClosedHoldsReached(succ, {row}, s, w);
    }
  }

  lemma FailsBehindMore(db: Database, entered: set<Package>, more: set<Package>, row: VersionRow)
    requires entered <= more && FailsBehind(db, more, row)
    ensures FailsBehind(db, entered, row)
  {
    var w :| Reaches(NewSucc(db, more), row, w) && KeyOf(db, w) !in more && HasDeadEdge(db, w);
    ReachesWithMoreEdges(NewSucc(db, more), NewSucc(db, entered), row, w);
  }

  lemma {:induction false} EdgeFails(db: Database, entered: set<Package>, e: DependencyRow)
    requires !EnterEdge(db, entered, e).Succeeds()
    ensures Fails(db, entered, e)
    decreases |Universe(db) - entered|, 0
  {
    if Resolve(db, e.projectId, e.version).Some? {
      var row := Resolve(db, e.projectId, e.version).value;
      FewerLeft(db, entered, row);
      var f := EdgesFail(db, entered + {KeyOf(db, row)}, EdgesOf(db, row.id));
      FailurePassedOn(db, entered, row, f);
    }
  }

  lemma {:induction false} EdgesFail(db: Database, entered: set<Package>, edges: seq<DependencyRow>)
    returns (e: DependencyRow)
    requires !EnterEdges(db, entered, edges).Succeeds()
    ensures e in edges && Fails(db, entered, e)
    decreases |Universe(db) - entered|, 1 + |edges|
  {
    var first := EnterEdge(db, entered, edges[0]);
    if !first.Succeeds() {
      EdgeFails(db, entered, edges[0]);
      return edges[0];
    }
    NotLarger(Universe(db) - first.entered, Universe(db) - entered);
    e := EdgesFail(db, first.entered, edges[1..]);
    if Resolve(db, e.projectId, e.version).Some? {
      FailsBehindMore(db, entered, first.entered, Resolve(db, e.projectId, e.version).value);
    }
  }

  lemma FailurePassedOn(db: Database, entered: set<Package>, row: VersionRow, e: DependencyRow)
    requires row in db.versions && KeyOf(db, row) !in entered
    requires e in EdgesOf(db, row.id) && Fails(db, entered + {KeyOf(db, row)}, e)
    ensures FailsBehind(db, entered, row)
  {
    var succ := NewSucc(db, entered);
    if Resolve(db, e.projectId, e.version).None? {
      ReachesSelf(succ, row);
    } else {
      var target := Resolve(db, e.projectId, e.version).value;
      FailsBehindMore(db, entered, entered + {KeyOf(db, row)}, target);
      var w :| Reaches(succ, target, w) && KeyOf(db, w) !in entered && HasDeadEdge(db, w);
      ReachesAfterEdge(succ, row, target, w);
    }
  }

  /** The walk over a package's dependencies fails exactly when one of them has no version, or some
      package behind it, met through packages not entered before, has such a dependency. */
  lemma EnteringSucceedsIff(db: Database, entered: set<Package>, edges: seq<DependencyRow>)
    ensures EnterEdges(db, entered, edges).Succeeds() <==> forall e | e in edges :: !Fails(db, entered, e)
  {
    var after := EnterEdges(db, entered, edges);
    if after.Succeeds() {
      EdgesSucceed(db, entered, edges);
      forall e | e in edges
        ensures !Fails(db, entered, e)
      {
        SettledDoesNotFail(db, entered, after.entered, Resolve(db, e.projectId, e.version).value);
      }
    } else {
      var e := EdgesFail(db, entered, edges);
    }
  }

  /** The same of a requested package, which is entered first. */
  lemma ProjectSucceedsIff(db: Database, entered: set<Package>, projectId: nat, version: Version)
    ensures EnterProject(db, entered, projectId, version).Succeeds()
       <==> Resolve(db, projectId, version).Some?
            && var row := Resolve(db, projectId, version).value;
               forall e | e in EdgesOf(db, row.id) :: !Fails(db, entered + {KeyOf(db, row)}, e)
  {
    if Resolve(db, projectId, version).Some? {
      var row := Resolve(db, projectId, version).value;
      EnteringSucceedsIff(db, entered + {KeyOf(db, row)}, EdgesOf(db, row.id));
    }
  }
}
