/** Databases on which the walks fall short: the cases that the conditions of the theorems exclude
    do occur. */
module Examples {
  import opened Results
  import opened Graphs
  import opened LikePattern
  import opened Versions
  import opened PackagesDatabase
  import opened VersionLookup
  import opened DependencyGraph
  import opened EnteredPackages
  import opened DependencyWalk
  import opened DependencySearch
  import opened Dependents

  // ----- a failure that is swallowed -----

  /** A root project with two children; the dependency of one child has no versions. */
  const SWALLOWING := Tables(
    [ProjectRow(1, "r", RootProject, {}), ProjectRow(2, "r.a", Library, {}),
     ProjectRow(3, "r.b", Library, {}), ProjectRow(4, "c", Library, {})],
    [VersionRow(1, 2, Numbers(1, 0, 0), {}, ""), VersionRow(2, 3, Numbers(1, 0, 0), {}, "")],
    [DependencyRow(2, 4, ANY_VERSION, {})])

  const CHILD_A := VersionRow(1, 2, Numbers(1, 0, 0), {}, "")
  const CHILD_B := VersionRow(2, 3, Numbers(1, 0, 0), {}, "")

  const ROOT_REQUEST := Request("r", ANY_VERSION, false)

  lemma SwallowingIsWellFormed()
    ensures WellFormed(SWALLOWING)
  {
    hide IsVersionRow, IsDependencyRow, IsProjectRow, SameVersion, SameProject, SameDependency;
    SwallowingRows();
    SwallowingIsUnique();
  }

  lemma SwallowingRows()
    ensures forall r | r in SWALLOWING.versions :: IsVersionRow(SWALLOWING.projects, r)
    ensures forall d | d in SWALLOWING.dependencies :: IsDependencyRow(SWALLOWING.projects, d)
    ensures forall p | p in SWALLOWING.projects :: IsProjectRow(p)
  {
    var p := SWALLOWING.projects;
    assert p[1] in p && p[2] in p && p[3] in p;
    assert HasProject(p, 2) && HasProject(p, 3) && HasProject(p, 4);
  }

  lemma SwallowingIsUnique()
    ensures forall p, q | p in SWALLOWING.projects && q in SWALLOWING.projects && SameProject(p, q) :: p == q
    ensures forall r, s | r in SWALLOWING.versions && s in SWALLOWING.versions && SameVersion(r, s) :: r == s
    ensures forall d, e | d in SWALLOWING.dependencies && e in SWALLOWING.dependencies && SameDependency(d, e) :: d == e
  {
    var p := SWALLOWING.projects;
    assert forall i, j | 0 <= i < j < 4 ::
        |p[i].path| == |p[j].path| ==> p[i].path[|p[i].path| - 1] != p[j].path[|p[i].path| - 1];
  }

  lemma ChildIsWanted(i: nat)
    requires WellFormed(SWALLOWING) && (i == 1 || i == 2)
    ensures SWALLOWING.projects[i] in Wanted(SWALLOWING, ROOT_REQUEST)
  {
    var p := SWALLOWING.projects[i];
    ChildPatternFits("r", p.path);
    assert p.path[1..][0] == '.' && "r"[1..] == "";
    assert Fits("r"[1..], p.path[1..]);
    assert p in SWALLOWING.projects;
    assert FindPath(SWALLOWING.projects, "r") == Some(SWALLOWING.projects[0]);
  }

  lemma ChildrenResolve()
    ensures WellFormed(SWALLOWING)
    ensures Resolve(SWALLOWING, 2, ANY_VERSION) == Some(CHILD_A) && Resolve(SWALLOWING, 3, ANY_VERSION) == Some(CHILD_B)
    ensures Resolve(SWALLOWING, 4, ANY_VERSION) == None
  {
    SwallowingIsWellFormed();
    var v := SWALLOWING.versions;
    assert v[0] in v && v[1] in v;
    ResolveIsBest(SWALLOWING, 2, ANY_VERSION, CHILD_A);
    ResolveIsBest(SWALLOWING, 3, ANY_VERSION, CHILD_B);
    ResolvesIffAnswered(SWALLOWING, 4, ANY_VERSION);
  }

  /** The request is certain to succeed, and yet a dead edge lies behind one of its roots: by the
      contract of FindDependencies the result is then not exact. */
  lemma SuccessCanBeInexact()
    ensures WellFormed(SWALLOWING)
    ensures IsServed(SWALLOWING, ROOT_REQUEST) && SomeDead(SWALLOWING, Roots(SWALLOWING, [ROOT_REQUEST]))
  {
    ChildrenResolve();
    ChildIsWanted(1);
    ChildIsWanted(2);
    ChildAIsAlive();
    ChildBIsDead();
    assert Resolves(SWALLOWING, SWALLOWING.projects[1], ANY_VERSION);
    assert CHILD_B in RequestRoots(SWALLOWING, ROOT_REQUEST) by {
      assert Resolve(SWALLOWING, SWALLOWING.projects[2].id, ANY_VERSION) == Some(CHILD_B);
    }
    assert ROOT_REQUEST in [ROOT_REQUEST];
    assert CHILD_B in Roots(SWALLOWING, [ROOT_REQUEST]);
  }

  lemma NoEdgesOfA()
    requires WellFormed(SWALLOWING)
    ensures forall e :: e !in EdgesOf(SWALLOWING, 1)
  {
    assert forall d | d in SWALLOWING.dependencies :: d == SWALLOWING.dependencies[0];
  }

  lemma ChildAIsAlive()
    requires WellFormed(SWALLOWING)
    ensures !DeadEdgeBehind(SWALLOWING, CHILD_A)
  {
    hide WellFormed;
    var succ := Succ(SWALLOWING);
    NoEdgesOfA();
    assert IsClosed(succ, {CHILD_A});
    forall w | Reaches(succ, CHILD_A, w)
      ensures !HasDeadEdge(SWALLOWING, w)
    {
      assert ReachedFrom(succ, {CHILD_A}, w);
      ClosedHoldsReached(succ, {CHILD_A}, {CHILD_A}, w);
    }
  }

  lemma ChildBIsDead()
    requires WellFormed(SWALLOWING) && Resolve(SWALLOWING, 4, ANY_VERSION).None?
    ensures DeadEdgeBehind(SWALLOWING, CHILD_B)
  {
    var e := SWALLOWING.dependencies[0];
    assert e in EdgesOf(SWALLOWING, 2);
    ReachesSelf(Succ(SWALLOWING), CHILD_B);
    assert HasDeadEdge(SWALLOWING, CHILD_B);
  }

  // ----- a success without a child that is served -----

  /** Both children of a root project depend on d, whose own dependency c has no versions. */
  const SHADOWING := Tables(
    [ProjectRow(1, "r", RootProject, {}), ProjectRow(2, "r.a", Library, {}), ProjectRow(3, "r.b", Library, {}),
     ProjectRow(4, "d", Library, {}), ProjectRow(5, "c", Library, {})],
    [VersionRow(1, 2, Numbers(1, 0, 0), {}, ""), VersionRow(2, 3, Numbers(1, 0, 0), {}, ""),
     VersionRow(3, 4, Numbers(1, 0, 0), {}, "")],
    [DependencyRow(1, 4, ANY_VERSION, {}), DependencyRow(2, 4, ANY_VERSION, {}), DependencyRow(3, 5, ANY_VERSION, {})])

  const ROW_D := VersionRow(3, 4, Numbers(1, 0, 0), {}, "")

  lemma ShadowingIsWellFormed()
    ensures WellFormed(SHADOWING)
  {
    hide IsVersionRow, IsDependencyRow, IsProjectRow, SameVersion, SameProject, SameDependency;
    ShadowingRows();
    ShadowingIsUnique();
  }

  lemma ShadowingRows()
    ensures forall r | r in SHADOWING.versions :: IsVersionRow(SHADOWING.projects, r)
    ensures forall d | d in SHADOWING.dependencies :: IsDependencyRow(SHADOWING.projects, d)
    ensures forall p | p in SHADOWING.projects :: IsProjectRow(p)
  {
    var p := SHADOWING.projects;
    assert p[1] in p && p[2] in p && p[3] in p && p[4] in p;
    assert HasProject(p, 2) && HasProject(p, 3) && HasProject(p, 4) && HasProject(p, 5);
  }

  lemma ShadowingIsUnique()
    ensures forall p, q | p in SHADOWING.projects && q in SHADOWING.projects && SameProject(p, q) :: p == q
    ensures forall r, s | r in SHADOWING.versions && s in SHADOWING.versions && SameVersion(r, s) :: r == s
    ensures forall d, e | d in SHADOWING.dependencies && e in SHADOWING.dependencies && SameDependency(d, e) :: d == e
  {
    var p := SHADOWING.projects;
    assert forall i, j | 0 <= i < j < 5 ::
        |p[i].path| == |p[j].path| ==> p[i].path[|p[i].path| - 1] != p[j].path[|p[i].path| - 1];
  }

  lemma ShadowingResolves()
    requires WellFormed(SHADOWING)
    ensures Resolve(SHADOWING, 2, ANY_VERSION) == Some(CHILD_A) && Resolve(SHADOWING, 3, ANY_VERSION) == Some(CHILD_B)
    ensures Resolve(SHADOWING, 4, ANY_VERSION) == Some(ROW_D) && Resolve(SHADOWING, 5, ANY_VERSION) == None
  {
    hide WellFormed;
    var v := SHADOWING.versions;
    assert v[0] in v && v[1] in v && v[2] in v;
    ResolveIsBest(SHADOWING, 2, ANY_VERSION, CHILD_A);
    ResolveIsBest(SHADOWING, 3, ANY_VERSION, CHILD_B);
    ResolveIsBest(SHADOWING, 4, ANY_VERSION, ROW_D);
    ResolvesIffAnswered(SHADOWING, 5, ANY_VERSION);
  }

  lemma ShadowingEdges(id: nat)
    requires WellFormed(SHADOWING) && 1 <= id <= 3
    ensures EdgesOf(SHADOWING, id) == [SHADOWING.dependencies[id - 1]]
  {
    hide WellFormed;
    var d := SHADOWING.dependencies;
    var of := (e: DependencyRow) => e.versionId == id;
    assert d[1..][0] == d[1] && d[1..][1..] == d[2..] && d[2..][0] == d[2] && d[2..][1..] == [];
    assert Select(d, of) == if id == 1 then [d[0]] + Select(d[1..], of) else Select(d[1..], of);
    assert Select(d[1..], of) == if id == 2 then [d[1]] + Select(d[2..], of) else Select(d[2..], of);
    assert Select(d[2..], of) == if id == 3 then [d[2]] else [];
  }

  lemma ShadowingFits(i: nat)
    requires i < 5
    ensures Like(ChildPattern("r"), SHADOWING.projects[i].path) <==> i == 1 || i == 2
  {
    var path := SHADOWING.projects[i].path;
    ChildPatternFits("r", path);
    assert "r"[1..] == "";
    assert Fits("r", path) <==> path[0] == 'r' && Fits("", path[1..]);
  }

  /** The children of r are r.a and r.b. */
  lemma ShadowingChildren()
    requires WellFormed(SHADOWING)
    ensures forall x :: x in Wanted(SHADOWING, ROOT_REQUEST) <==> IsChild(x)
    ensures EnterChildren(SHADOWING, {}, Wanted(SHADOWING, ROOT_REQUEST), ANY_VERSION).failure.None? ==>
              EnterRequest(SHADOWING, {}, ROOT_REQUEST).failure.None?
  {
    hide WellFormed, Like, EnterChildren;
    var p := SHADOWING.projects;
    assert p[0] in p && p[1] in p && p[2] in p;
    assert FindPath(p, "r") == Some(p[0]);
    forall i | 0 <= i < 5
      ensures Like(ChildPattern("r"), p[i].path) <==> i == 1 || i == 2
    {
      ShadowingFits(i);
    }
  }

  /** d is entered and then found to lack a dependency. */
  lemma EnteringDFails(entered: set<Package>)
    requires WellFormed(SHADOWING) && KeyOf(SHADOWING, ROW_D) !in entered
    ensures forall i | 0 <= i < 2 ::
              var o := EnterEdges(SHADOWING, entered, [SHADOWING.dependencies[i]]);
              o.entered == entered + {KeyOf(SHADOWING, ROW_D)} && o.failure.Some?
  {
    hide WellFormed, KeyOf;
    ShadowingResolves();
    ShadowingEdges(3);
    var d := SHADOWING.dependencies;
    var more := entered + {KeyOf(SHADOWING, ROW_D)};
    FirstEntered(SHADOWING, more, [d[2]]);
    EdgeEntered(SHADOWING, more, d[2]);
    assert EnterEdges(SHADOWING, more, [d[2]]).entered == more && EnterEdges(SHADOWING, more, [d[2]]).failure.Some?;
    FirstEntered(SHADOWING, entered, [d[0]]);
    EdgeEntered(SHADOWING, entered, d[0]);
    FirstEntered(SHADOWING, entered, [d[1]]);
    EdgeEntered(SHADOWING, entered, d[1]);
  }

  lemma EnteringDAgain(entered: set<Package>, i: nat)
    requires WellFormed(SHADOWING) && KeyOf(SHADOWING, ROW_D) in entered && i < 2
    ensures var o := EnterEdges(SHADOWING, entered, [SHADOWING.dependencies[i]]);
            o.entered == entered && o.failure.None?
  {
    hide WellFormed, KeyOf;
    ShadowingResolves();
    var d := SHADOWING.dependencies;
    FirstEntered(SHADOWING, entered, [d[i]]);
    EdgeEntered(SHADOWING, entered, d[i]);
    assert [d[i]][1..] == [];
    NoneEntered(SHADOWING, entered);
  }

  predicate IsChild(p: ProjectRow) { p == SHADOWING.projects[1] || p == SHADOWING.projects[2] }

  lemma ChildEntersD(p: ProjectRow, entered: set<Package>)
    requires WellFormed(SHADOWING) && IsChild(p)
    ensures var o := EnterProject(SHADOWING, entered, p.id, ANY_VERSION);
            KeyOf(SHADOWING, ROW_D) in o.entered && (KeyOf(SHADOWING, ROW_D) in entered ==> o.failure.None?)
  {
    hide WellFormed, KeyOf;
    ShadowingResolves();
    var row := Resolve(SHADOWING, p.id, ANY_VERSION).value;
    ProjectEntered(SHADOWING, entered, p.id, ANY_VERSION);
    ShadowingEdges(row.id);
    var more := entered + {KeyOf(SHADOWING, row)};
    if KeyOf(SHADOWING, ROW_D) in more {
      EnteringDAgain(more, row.id - 1);
    } else {
      EnteringDFails(more);
    }
  }

  /** The first child leaves d entered, and the second one does not look behind d. */
  lemma SecondChildSucceeds(s: seq<ProjectRow>)
    requires WellFormed(SHADOWING) && |s| >= 2 && IsChild(s[0]) && IsChild(s[1])
    ensures EnterChildren(SHADOWING, {}, s, ANY_VERSION).failure.None?
  {
    hide WellFormed, IsChild, EnterProject;
    var first := EnterProject(SHADOWING, {}, s[0].id, ANY_VERSION);
    ChildEntersD(s[0], {});
    ChildEntersD(s[1], first.entered);
    FirstChild(SHADOWING, {}, s, ANY_VERSION);
    FirstChild(SHADOWING, first.entered, s[1..], ANY_VERSION);
  }

  lemma FirstChild(db: Database, entered: set<Package>, s: seq<ProjectRow>, version: Version)
    requires s != []
    ensures var first := EnterProject(db, entered, s[0].id, version);
            var rest := EnterChildren(db, first.entered, s[1..], version);
            EnterChildren(db, entered, s, version).failure.None? <==> first.failure.None? || rest.failure.None?
  {
    hide EnterProject;
  }

  lemma BothChildrenAreDead(row: VersionRow)
    requires WellFormed(SHADOWING) && (row == CHILD_A || row == CHILD_B)
    ensures DeadEdgeBehind(SHADOWING, row)
  {
    hide WellFormed;
    ShadowingResolves();
    ShadowingEdges(row.id);
    ShadowingEdges(3);
    var d := SHADOWING.dependencies;
    assert d[row.id - 1] in EdgesOf(SHADOWING, row.id) && d[2] in EdgesOf(SHADOWING, 3);
    assert ROW_D in Succ(SHADOWING)(row) && HasDeadEdge(SHADOWING, ROW_D);
    ReachesEdge(Succ(SHADOWING), row, ROW_D);
  }

  lemma NoChildIsServed()
    requires WellFormed(SHADOWING)
    ensures !IsServed(SHADOWING, ROOT_REQUEST)
  {
    hide WellFormed, Wanted, DeadEdgeBehind, EnterRequest, EnterChildren;
    ShadowingResolves();
    ShadowingChildren();
    BothChildrenAreDead(CHILD_A);
    BothChildrenAreDead(CHILD_B);
  }

  lemma TwoChildren(s: seq<ProjectRow>)
    requires forall x :: x in s <==> IsChild(x)
    ensures |s| >= 2 && IsChild(s[0]) && IsChild(s[1])
  {
    var p := SHADOWING.projects;
    assert p[1] in s && p[2] in s && p[1] != p[2];
  }

  /** The request succeeds, by the contract of FindDependencies, although no child is served. */
  lemma SuccessWithoutServedChild()
    ensures WellFormed(SHADOWING)
    ensures EnterRequests(SHADOWING, {}, [ROOT_REQUEST]).failure.None? && !IsServed(SHADOWING, ROOT_REQUEST)
  {
    ShadowingIsWellFormed();
    hide *;
    ShadowingChildren();
    NoChildIsServed();
    TwoChildren(Wanted(SHADOWING, ROOT_REQUEST));
    SecondChildSucceeds(Wanted(SHADOWING, ROOT_REQUEST));
    FirstRequest(SHADOWING, {}, [ROOT_REQUEST]);
    assert [ROOT_REQUEST][1..] == [];
    var first := EnterRequest(SHADOWING, {}, ROOT_REQUEST);
    NoRequest(SHADOWING, first.entered);
    RequestsEnd(first.met, first.entered);
  }

  // ----- a cache that hides dependents -----

  /** Project c depends on b, and b on a. */
  const CHAIN := Tables(
    [ProjectRow(1, "a", Library, {}), ProjectRow(2, "b", Library, {}), ProjectRow(3, "c", Library, {})],
    [VersionRow(1, 1, Numbers(1, 0, 0), {}, ""), VersionRow(2, 2, Numbers(1, 0, 0), {}, ""),
     VersionRow(3, 3, Numbers(1, 0, 0), {}, "")],
    [DependencyRow(2, 1, ANY_VERSION, {}), DependencyRow(3, 2, ANY_VERSION, {})])

  const A := Package("a", Numbers(1, 0, 0))
  const B := Package("b", Numbers(1, 0, 0))
  const C := Package("c", Numbers(1, 0, 0))

  lemma ChainIsWellFormed()
    ensures WellFormed(CHAIN)
  {
    var p := CHAIN.projects;
    assert p[0] in p && p[1] in p && p[2] in p;
    assert HasProject(p, 1) && HasProject(p, 2) && HasProject(p, 3);
    assert forall i | 0 <= i < 3 :: p[i].path[0] == ['a', 'b', 'c'][i];
  }

  lemma ChainPaths()
    requires WellFormed(CHAIN)
    ensures PathOf(CHAIN, 1) == "a" && PathOf(CHAIN, 2) == "b" && PathOf(CHAIN, 3) == "c"
    ensures "a"[0] != "b"[0] && "b"[0] != "c"[0] && "a"[0] != "c"[0]
  {
    var p := CHAIN.projects;
    assert p[1..][0] == p[1] && p[1..][1..] == p[2..] && p[2..][0] == p[2];
    assert FindProject(p, 3) == FindProject(p[1..], 3) == FindProject(p[2..], 3);
  }

  lemma ChainKeys()
    requires WellFormed(CHAIN)
    ensures forall d | d in CHAIN.dependencies :: d.versionId == d.projectId + 1 && d.version == ANY_VERSION
    ensures forall d | d in CHAIN.dependencies :: PathOf(CHAIN, d.projectId) == (if d.projectId == 1 then "a" else "b")
    ensures forall r | r in CHAIN.versions && r.id == 2 :: KeyOf(CHAIN, r) == B
    ensures forall r | r in CHAIN.versions && r.id == 3 :: KeyOf(CHAIN, r) == C
  {
    hide WellFormed, PathOf;
    ChainPaths();
  }

  /** A package depends on b's only project if it is c, and on a's if it is b. */
  lemma ChainDependent(k: Package, p: Package)
    requires WellFormed(CHAIN) && k in DependentsOf(CHAIN, p)
    ensures (p.path == "a" && k == B) || (p.path == "b" && k == C)
  {
    hide WellFormed, PathOf, KeyOf, Accepts;
    ChainKeys();
    var e, row :| e in CHAIN.dependencies && row in CHAIN.versions && row.id == e.versionId
                  && PathOf(CHAIN, e.projectId) == p.path && Accepts(e.version, p.version) && KeyOf(CHAIN, row) == k;
    assert e.projectId == 1 || e.projectId == 2;
  }

  lemma ChainEdges()
    requires WellFormed(CHAIN)
    ensures B in DependentsOf(CHAIN, A) && C in DependentsOf(CHAIN, B)
  {
    ChainAccepts();
    ChainKeys();
    hide WellFormed, PathOf, KeyOf, Accepts;
    var v, d := CHAIN.versions, CHAIN.dependencies;
    assert v[1] in v && v[2] in v && d[0] in d && d[1] in d;
  }

  /** The dependents of a package of the chain, found row by row. */
  lemma ChainDependents()
    requires WellFormed(CHAIN)
    ensures DependentsOf(CHAIN, A) == {B} && DependentsOf(CHAIN, B) == {C} && DependentsOf(CHAIN, C) == {}
  {
    ChainEdges();
    hide WellFormed, DependentsOf;
    assert A.path[0] != B.path[0] && B.path[0] != C.path[0] && A.path[0] != C.path[0];
    forall k, p | k in DependentsOf(CHAIN, p)
      ensures (p.path == "a" && k == B) || (p.path == "b" && k == C)
    {
      ChainDependent(k, p);
    }
  }

  lemma ChainAccepts()
    ensures Accepts(ANY_VERSION, Numbers(1, 0, 0))
  {
  }

  lemma ReachedInARow<N>(succ: N -> set<N>, a: N, b: N, c: N)
    requires succ(a) == {b} && succ(b) == {c} && succ(c) == {}
    ensures forall p :: ReachedFrom(succ, {a}, p) <==> p in {a, b, c}
  {
    hide Reaches;
    ReachesSelf(succ, a);
    ReachesEdge(succ, a, b);
    ReachesEdge(succ, b, c);
    ReachesAfterEdge(succ, a, b, c);
    ClosedAndReached(succ, {a}, {a, b, c});
  }

  /** A completed query for a from the empty cache leaves a, b and c cached, for that is what it
      reaches. The same query can then miss c: a is cached, so b is taken in, and nothing is
      said to have changed. */
  lemma RepeatedQueryCanMissDependents()
    ensures WellFormed(CHAIN)
    ensures forall p :: ReachedFrom(Pred(CHAIN), {A}, p) <==> p in {A, B, C}
    ensures IsClosedCache(CHAIN, {A, B, C}) && !CacheIsHarmless(CHAIN, {A, B, C}, {A})
  {
    ChainIsWellFormed();
    ChainDependents();
    hide WellFormed, DependentsOf, IsKept, Reaches, ReachedFrom;
    ReachedInARow(Pred(CHAIN), A, B, C);
    RepeatedQueryKeepsDirect(CHAIN, {A, B, C}, {A}, C);
    assert A.path[0] != C.path[0] && B.path[0] != C.path[0];
    assert C !in {A, B};
    assert !IsKept(CHAIN, {A, B, C}, {A}, C);
  }
}
