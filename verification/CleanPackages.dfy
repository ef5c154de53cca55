/** The locking protocol by which concurrent calls of cleanPackage share the work of cleaning. */
module CleanPackages {
  import opened DependencyGraph

  /** A set of bits of CleanTarget. */
  type Targets = set<nat>
  const SRC: nat := 0

  /** Where a call stands: it has been made; it was turned away because the package is not
      installed; it is before the shared lock; it has passed the shared lock with what was then
      left to clean; it removes files; it has returned. */
  datatype Phase =
    | Started | Skipped | Checking
    | Claiming(left: Targets) | Working(claim: Targets) | Finished(claim: Targets)

  datatype Call = Call(pkg: Package, requested: Targets, phase: Phase)
  {
    /** What this call has taken upon itself to clean. */
    function Claim(): Targets {
      if phase.Working? || phase.Finished? then phase.claim else {}
    }

    predicate IsDone() { phase.Skipped? || phase.Finished? }
  }

  function Entry(cleaned: map<Package, Targets>, p: Package): Targets {
    if p in cleaned then cleaned[p] else {}
  }

  datatype State = State(cleaned: map<Package, Targets>, installed: set<Package>, calls: map<nat, Call>)
  {
    function Cleaned(p: Package): Targets { Entry(cleaned, p) }

    function Set(i: nat, phase: Phase): State
      requires i in calls
    {
      this.(calls := calls[i := calls[i].(phase := phase)])
    }
  }

  /** A step of the system: a call is made or one call goes on by one critical section, or
      someone installs a package. */
  datatype Step =
    | Begin(i: nat, pkg: Package, requested: Targets)
    | CheckInstalled(i: nat)
    | CheckShared(i: nat)
    | ClaimExclusive(i: nat)
    | Finish(i: nat)
    | Install(p: Package)

  predicate IsEnabled(s: State, a: Step) {
    match a
    case Begin(i, _, _) => i !in s.calls
    case CheckInstalled(i) => i in s.calls && s.calls[i].phase.Started?
    case CheckShared(i) => i in s.calls && s.calls[i].phase.Checking?
    case ClaimExclusive(i) => i in s.calls && s.calls[i].phase.Claiming?
    case Finish(i) => i in s.calls && s.calls[i].phase.Working?
    case Install(_) => true
  }

  /** Taking what is left of the wanted targets under the exclusive lock. */
  function Take(s: State, i: nat, wanted: Targets): State
    requires i in s.calls
  {
    var c := s.calls[i];
    var claim := wanted - s.Cleaned(c.pkg);
    var t := s.(cleaned := s.cleaned[c.pkg := s.Cleaned(c.pkg) + claim]);
    t.Set(i, if claim == {} then Finished({}) else Working(claim))
  }

  function Do(s: State, a: Step): State
    requires IsEnabled(s, a)
  {
    match a
    case Begin(i, p, requested) => s.(calls := s.calls[i := Call(p, requested, Started)])
    case CheckInstalled(i) => s.Set(i, if s.calls[i].pkg in s.installed then Checking else Skipped)
    case CheckShared(i) =>
      var left := s.calls[i].requested - s.Cleaned(s.calls[i].pkg);
      s.Set(i, if left == {} then Finished({}) else Claiming(left))
    case ClaimExclusive(i) => Take(s, i, s.calls[i].phase.left)
    case Finish(i) =>
      var c := s.calls[i];
      var t := if SRC in c.phase.claim then s.(installed := s.installed - {c.pkg}) else s;
      t.Set(i, Finished(c.phase.claim))
    case Install(p) => s.(installed := s.installed + {p})
  }

  /** The state after the steps, if each of them can be taken in its turn. */
  predicate IsRun(s: State, steps: seq<Step>, t: State)
    decreases |steps|
  {
    if steps == [] then s == t
    else IsEnabled(s, steps[0]) && IsRun(Do(s, steps[0]), steps[1..], t)
  }

  function Initial(installed: set<Package>): State {
    State(map[], installed, map[])
  }

  // ----- what every step keeps -----

  predicate IsDisjoint(s: State) {
    forall i, j | i in s.calls && j in s.calls && i != j && s.calls[i].pkg == s.calls[j].pkg ::
      s.calls[i].Claim() !! s.calls[j].Claim()
  }

  /** What is recorded as cleaned is what calls have claimed. */
  ghost predicate IsClaimed(s: State) {
    && (forall i | i in s.calls :: s.calls[i].Claim() <= s.Cleaned(s.calls[i].pkg))
    && (forall p, f | f in s.Cleaned(p) :: IsClaimedBySome(s, p, f))
  }

  ghost predicate IsClaimedBySome(s: State, p: Package, f: nat) {
    exists i :: i in s.calls && s.calls[i].pkg == p && f in s.calls[i].Claim()
  }

  /** A call claims only what it was asked for; what it has dropped or left is cleaned by some call. */
  predicate IsAccounted(s: State, c: Call) {
    match c.phase
    case Claiming(left) => left <= c.requested && c.requested - left <= s.Cleaned(c.pkg)
    case Working(claim) => claim <= c.requested <= s.Cleaned(c.pkg)
    case Finished(claim) => claim <= c.requested <= s.Cleaned(c.pkg)
    case _ => true
  }

  ghost predicate IsInvariant(s: State) {
    && IsDisjoint(s) && IsClaimed(s)
    && forall i | i in s.calls :: IsAccounted(s, s.calls[i])
  }

  lemma TakeKeepsInvariant(s: State, i: nat, wanted: Targets)
    requires IsInvariant(s) && i in s.calls && s.calls[i].Claim() == {}
    requires wanted <= s.calls[i].requested && s.calls[i].requested - wanted <= s.Cleaned(s.calls[i].pkg)
    ensures IsInvariant(Take(s, i, wanted))
  {
    var t := Take(s, i, wanted);
    var p := s.calls[i].pkg;
    var claim := wanted - s.Cleaned(p);
    assert t.calls[i].Claim() == claim;
    forall q, f | f in t.Cleaned(q)
      ensures IsClaimedBySome(t, q, f)
    {
      if f in s.Cleaned(q) {
        assert IsClaimedBySome(s, q, f);
        var j :| j in s.calls && s.calls[j].pkg == q && f in s.calls[j].Claim();
        assert t.calls[j] == s.calls[j];
      } else {
        assert q == p && f in t.calls[i].Claim();
      }
    }
  }

  /** Steps that claim nothing leave what is said of claims alone. */
  lemma SameClaims(s: State, t: State)
    requires IsDisjoint(s) && IsClaimed(s) && t.cleaned == s.cleaned
    requires forall i | i in s.calls ::
               i in t.calls && t.calls[i].pkg == s.calls[i].pkg && t.calls[i].Claim() == s.calls[i].Claim()
    requires forall i | i in t.calls && i !in s.calls :: t.calls[i].Claim() == {}
    ensures IsDisjoint(t) && IsClaimed(t)
  {
    forall p, f | f in t.Cleaned(p)
      ensures IsClaimedBySome(t, p, f)
    {
      assert IsClaimedBySome(s, p, f);
      var j :| j in s.calls && s.calls[j].pkg == p && f in s.calls[j].Claim();
      assert t.calls[j].pkg == p && f in t.calls[j].Claim();
    }
  }

  lemma OtherStepKeepsInvariant(s: State, a: Step)
    requires IsInvariant(s) && IsEnabled(s, a) && !a.ClaimExclusive?
    ensures IsInvariant(Do(s, a))
  {
    hide IsDisjoint, IsClaimed;
    var t := Do(s, a);
    SameClaims(s, t);
    forall i | i in t.calls
      ensures IsAccounted(t, t.calls[i])
    {
      assert i in s.calls ==> IsAccounted(s, s.calls[i]);
    }
  }

  lemma {:induction false} RunKeepsInvariant(s: State, steps: seq<Step>, t: State)
    requires IsInvariant(s) && IsRun(s, steps, t)
    ensures IsInvariant(t)
    decreases |steps|
  {
    hide IsInvariant;
    if steps != [] {
      var a := steps[0];
      if a.ClaimExclusive? {
        ClaimKeepsInvariant(s, a.i);
      } else {
        OtherStepKeepsInvariant(s, a);
      }
      RunKeepsInvariant(Do(s, a), steps[1..], t);
    }
  }

  lemma ClaimKeepsInvariant(s: State, i: nat)
    requires IsInvariant(s) && IsEnabled(s, ClaimExclusive(i))
    ensures IsInvariant(Do(s, ClaimExclusive(i)))
  {
    assert IsAccounted(s, s.calls[i]);
    TakeKeepsInvariant(s, i, s.calls[i].phase.left);
  }

  // ----- what holds in every run -----

  ghost function Claims(s: State, p: Package): Targets {
    set i, f | i in s.calls && s.calls[i].pkg == p && f in s.calls[i].Claim() :: f
  }

  /** What the calls that passed the installed check were asked to clean. */
  ghost function Requests(s: State, p: Package): Targets {
    set i, f | i in s.calls && s.calls[i].pkg == p && !s.calls[i].phase.Started? && !s.calls[i].phase.Skipped?
               && f in s.calls[i].requested :: f
  }

  /** In every interleaving no target of a package is claimed by two calls, what is recorded as
      cleaned is what they have claimed, and when all calls are done it is all they were asked. */
  lemma EveryTargetIsCleanedOnce(installed: set<Package>, steps: seq<Step>, s: State)
    requires IsRun(Initial(installed), steps, s)
    ensures IsDisjoint(s)
    ensures forall p :: s.Cleaned(p) == Claims(s, p)
    ensures (forall i | i in s.calls :: s.calls[i].IsDone()) ==> forall p :: s.Cleaned(p) == Requests(s, p)
  {
    RunKeepsInvariant(Initial(installed), steps, s);
    forall p
      ensures s.Cleaned(p) == Claims(s, p)
      ensures (forall i | i in s.calls :: s.calls[i].IsDone()) ==> s.Cleaned(p) == Requests(s, p)
    {
      forall f | f in s.Cleaned(p)
        ensures f in Claims(s, p) && f in Requests(s, p)
      {
        assert IsClaimedBySome(s, p, f);
        var i :| i in s.calls && s.calls[i].pkg == p && f in s.calls[i].Claim();
        assert IsAccounted(s, s.calls[i]);
      }
      if forall i | i in s.calls :: s.calls[i].IsDone() {
        forall f | f in Requests(s, p)
          ensures f in s.Cleaned(p)
        {
          var i :| i in s.calls && s.calls[i].pkg == p && !s.calls[i].phase.Skipped? && f in s.calls[i].requested;
          assert s.calls[i].IsDone() && IsAccounted(s, s.calls[i]);
        }
      }
    }
  }

  // ----- what being installed decides -----

  /** Calls are not forgotten, and what they were made with does not change. */
  lemma {:induction false} CallsStay(s: State, steps: seq<Step>, t: State, i: nat)
    requires IsRun(s, steps, t) && i in s.calls
    ensures i in t.calls && t.calls[i].pkg == s.calls[i].pkg && t.calls[i].requested == s.calls[i].requested
    decreases |steps|
  {
    if steps != [] {
      CallsStay(Do(s, steps[0]), steps[1..], t, i);
    }
  }

  /** The calls there are in the end are those that were there, and those that have been made. */
  lemma {:induction false} CallsAreMade(s: State, steps: seq<Step>, t: State)
    requires IsRun(s, steps, t)
    ensures forall i | i in t.calls && i !in s.calls :: Begin(i, t.calls[i].pkg, t.calls[i].requested) in steps
    ensures forall a | a in steps && a.Begin? ::
              a.i in t.calls && t.calls[a.i].pkg == a.pkg && t.calls[a.i].requested == a.requested
    decreases |steps|
  {
    if steps != [] {
      var u := Do(s, steps[0]);
      CallsAreMade(u, steps[1..], t);
      forall i | i in u.calls
        ensures i in t.calls && t.calls[i].pkg == u.calls[i].pkg && t.calls[i].requested == u.calls[i].requested
      {
        CallsStay(u, steps[1..], t, i);
      }
      assert steps == [steps[0]] + steps[1..];
    }
  }

  /** All that calls on the package are asked to clean. */
  ghost function Asked(steps: seq<Step>, p: Package): Targets {
    set a, f | a in steps && a.Begin? && a.pkg == p && f in a.requested :: f
  }

  lemma AskedOfCalls(installed: set<Package>, steps: seq<Step>, s: State, p: Package)
    requires IsRun(Initial(installed), steps, s)
    ensures Asked(steps, p) == set i, f | i in s.calls && s.calls[i].pkg == p && f in s.calls[i].requested :: f
  {
    CallsAreMade(Initial(installed), steps, s);
    forall f | f in Asked(steps, p)
      ensures exists i :: i in s.calls && s.calls[i].pkg == p && f in s.calls[i].requested
    {
      var a :| a in steps && a.Begin? && a.pkg == p && f in a.requested;
      assert a.i in s.calls;
    }
  }

  /** The package is not installed and no call on it has got past the check. */
  ghost predicate IsLeftAlone(s: State, p: Package) {
    && p !in s.installed && s.Cleaned(p) == {}
    && forall i | i in s.calls && s.calls[i].pkg == p :: s.calls[i].phase.Started? || s.calls[i].phase.Skipped?
  }

  lemma {:induction false} LeftAloneStays(s: State, steps: seq<Step>, t: State, p: Package)
    requires IsRun(s, steps, t) && IsLeftAlone(s, p) && Install(p) !in steps
    ensures IsLeftAlone(t, p)
    decreases |steps|
  {
    if steps != [] {
      assert steps[0] in steps;
      LeftAloneStays(Do(s, steps[0]), steps[1..], t, p);
    }
  }

  /** A package that is never installed is never cleaned: every call on it is turned away. */
  lemma OnlyInstalledAreCleaned(installed: set<Package>, steps: seq<Step>, s: State, p: Package)
    requires IsRun(Initial(installed), steps, s) && p !in installed && Install(p) !in steps
    ensures s.Cleaned(p) == {} && p !in s.installed
    ensures forall i | i in s.calls && s.calls[i].pkg == p && s.calls[i].IsDone() :: s.calls[i].phase.Skipped?
  {
    LeftAloneStays(Initial(installed), steps, s, p);
  }

  /** The package is installed and no call on it was turned away or may remove it. */
  ghost predicate IsServing(s: State, p: Package) {
    p in s.installed && forall i | i in s.calls && s.calls[i].pkg == p :: !s.calls[i].phase.Skipped?
  }

  ghost predicate NobodyRemoves(s: State, p: Package) {
    forall i | i in s.calls && s.calls[i].pkg == p :: SRC !in s.calls[i].requested
  }

  lemma NobodyRemovedBefore(s: State, steps: seq<Step>, t: State, p: Package)
    requires IsRun(s, steps, t) && NobodyRemoves(t, p)
    ensures NobodyRemoves(s, p)
  {
    forall i | i in s.calls && s.calls[i].pkg == p
      ensures SRC !in s.calls[i].requested
    {
      CallsStay(s, steps, t, i);
    }
  }

  lemma ServingStep(s: State, a: Step, p: Package)
    requires IsInvariant(s) && IsServing(s, p) && NobodyRemoves(s, p) && IsEnabled(s, a)
    ensures IsServing(Do(s, a), p)
  {
    hide IsDisjoint, IsClaimed;
    if a.Finish? {
      assert IsAccounted(s, s.calls[a.i]);
    }
  }

  lemma {:induction false} ServingStays(s: State, steps: seq<Step>, t: State, p: Package)
    requires IsInvariant(s) && IsServing(s, p) && IsRun(s, steps, t) && NobodyRemoves(t, p)
    ensures IsServing(t, p)
    decreases |steps|
  {
    hide IsInvariant, IsServing;
    if steps != [] {
      var u := Do(s, steps[0]);
      NobodyRemovedBefore(s, steps, t, p);
      ServingStep(s, steps[0], p);
      RunKeepsInvariant(s, [steps[0]], u);
      ServingStays(u, steps[1..], t, p);
    }
  }

  /** An installed package whose sources no call is asked to remove turns no call away; when all are
      done, it has been cleaned of everything that they were asked. */
  lemma InstalledAreCleaned(installed: set<Package>, steps: seq<Step>, s: State, p: Package)
    requires IsRun(Initial(installed), steps, s) && p in installed
    requires SRC !in Asked(steps, p)
    ensures p in s.installed && forall i | i in s.calls && s.calls[i].pkg == p :: !s.calls[i].phase.Skipped?
    ensures (forall i | i in s.calls :: s.calls[i].IsDone()) ==> s.Cleaned(p) == Asked(steps, p)
  {
    hide IsInvariant, Asked;
    AskedOfCalls(installed, steps, s, p);
    InitialInvariant(installed);
    assert NobodyRemoves(s, p);
    ServingStays(Initial(installed), steps, s, p);
    EveryTargetIsCleanedOnce(installed, steps, s);
    if forall i | i in s.calls :: s.calls[i].IsDone() {
      forall f | f in Asked(steps, p)
        ensures f in Requests(s, p)
      {
        var i :| i in s.calls && s.calls[i].pkg == p && f in s.calls[i].requested;
        assert s.calls[i].IsDone();
      }
    }
  }

  /** The call has removed the sources of the package. */
  predicate HasRemoved(s: State, p: Package, i: nat) {
    i in s.calls && s.calls[i].pkg == p && s.calls[i].phase.Finished? && SRC in s.calls[i].phase.claim
  }

  lemma {:induction false} RemovedStays(s: State, steps: seq<Step>, t: State, p: Package, i: nat)
    requires IsRun(s, steps, t) && HasRemoved(s, p, i)
    ensures HasRemoved(t, p, i)
    decreases |steps|
  {
    if steps != [] {
      RemovedStays(Do(s, steps[0]), steps[1..], t, p, i);
    }
  }

  /** A package leaves the installed ones only by a call that has claimed its sources and finished,
      and each such call takes it out. */
  lemma {:induction false} LeavesByRemoval(s: State, steps: seq<Step>, t: State, p: Package) returns (i: nat)
    requires IsRun(s, steps, t) && p in s.installed && p !in t.installed
    ensures HasRemoved(t, p, i) && !HasRemoved(s, p, i)
    decreases |steps|
  {
    var u := Do(s, steps[0]);
    if p in u.installed {
      i := LeavesByRemoval(u, steps[1..], t, p);
      if HasRemoved(s, p, i) {
        RemovedStays(s, [steps[0]], u, p, i);
      }
    } else {
      i := steps[0].i;
      RemovedStays(u, steps[1..], t, p, i);
    }
  }

  lemma {:induction false} RemovalTakesOut(s: State, steps: seq<Step>, t: State, p: Package, i: nat)
    requires IsRun(s, steps, t) && HasRemoved(t, p, i) && Install(p) !in steps
    requires HasRemoved(s, p, i) ==> p !in s.installed
    ensures p !in t.installed
    decreases |steps|
  {
    if steps != [] {
      assert steps[0] in steps;
      RemovalTakesOut(Do(s, steps[0]), steps[1..], t, p, i);
    }
  }

  /** Once installed, a package is there in the end unless such a call has finished since. */
  lemma InstalledUnlessRemoved(s: State, steps: seq<Step>, t: State, p: Package)
    requires IsRun(Do(s, Install(p)), steps, t)
    ensures p in t.installed || exists i :: HasRemoved(t, p, i) && !HasRemoved(s, p, i)
  {
    var u := Do(s, Install(p));
    if p !in t.installed {
      var i := LeavesByRemoval(u, steps, t, p);
      assert u.calls == s.calls;
    }
  }

  /** Nothing but an installation brings a package in. */
  lemma {:induction false} ArrivesByInstallation(s: State, steps: seq<Step>, t: State, p: Package)
    requires IsRun(s, steps, t) && p !in s.installed && p in t.installed
    ensures Install(p) in steps
    decreases |steps|
  {
    if steps != [] && steps[0] != Install(p) {
      ArrivesByInstallation(Do(s, steps[0]), steps[1..], t, p);
    }
  }

  /** Over a whole run without installations of it, an installed package is gone in the end exactly
      when some call has claimed its sources and finished. */
  lemma GoneIffRemoved(installed: set<Package>, steps: seq<Step>, s: State, p: Package)
    requires IsRun(Initial(installed), steps, s) && p in installed && Install(p) !in steps
    ensures p !in s.installed <==> exists i :: HasRemoved(s, p, i)
  {
    if p !in s.installed {
      var i := LeavesByRemoval(Initial(installed), steps, s, p);
    }
    if i :| HasRemoved(s, p, i) {
      RemovalTakesOut(Initial(installed), steps, s, p, i);
    }
  }

  // ----- the protocol without the shared lock -----

  /** The simpler protocol claims in one exclusive step all that is requested and not cleaned. */
  predicate IsSimplyEnabled(s: State, a: Step) {
    match a
    case CheckShared(_) => false
    case ClaimExclusive(i) => i in s.calls && s.calls[i].phase.Checking?
    case _ => IsEnabled(s, a)
  }

  function DoSimply(s: State, a: Step): State
    requires IsSimplyEnabled(s, a)
  {
    if a.ClaimExclusive? then Take(s, a.i, s.calls[a.i].requested) else Do(s, a)
  }

  predicate IsSimpleRun(s: State, steps: seq<Step>, t: State)
    decreases |steps|
  {
    if steps == [] then s == t
    else IsSimplyEnabled(s, steps[0]) && IsSimpleRun(DoSimply(s, steps[0]), steps[1..], t)
  }

  /** Calls look the same but for having passed the shared lock. */
  predicate LooksLike(c: Call, d: Call) {
    && c.pkg == d.pkg && c.requested == d.requested
    && (if c.phase.Claiming? then d.phase.Checking? else c.phase == d.phase)
  }

  /** The states agree on what is installed, on what is cleaned and on what each call claimed. */
  ghost predicate Matches(s: State, t: State) {
    && s.installed == t.installed && AreAlike(s.cleaned, t.cleaned)
    && s.calls.Keys == t.calls.Keys && forall i | i in s.calls :: LooksLike(s.calls[i], t.calls[i])
  }

  /** A step of the protocol is a step of the simple one or, behind the shared lock, none. */
  function Simplified(s: State, a: Step): seq<Step>
    requires IsEnabled(s, a)
  {
    match a
    case CheckShared(i) =>
      if s.calls[i].requested - s.Cleaned(s.calls[i].pkg) == {} then [ClaimExclusive(i)] else []
    case _ => [a]
  }

  /** The maps record the same as cleaned for every package. */
  ghost predicate AreAlike(m: map<Package, Targets>, n: map<Package, Targets>) {
    forall q :: Entry(m, q) == Entry(n, q)
  }

  lemma UpdatedAlike(m: map<Package, Targets>, n: map<Package, Targets>, p: Package, f: Targets)
    requires AreAlike(m, n)
    ensures AreAlike(m[p := f], n[p := f])
  {
    var m', n' := m[p := f], n[p := f];
    forall q
      ensures Entry(m', q) == Entry(n', q)
    {
      assert Entry(m, q) == Entry(n, q);
    }
  }

  lemma ClaimIsSimple(s: State, i: nat, t: State)
    requires IsEnabled(s, ClaimExclusive(i)) && IsAccounted(s, s.calls[i]) && Matches(s, t)
    ensures IsSimplyEnabled(t, ClaimExclusive(i))
    ensures Matches(Do(s, ClaimExclusive(i)), Take(t, i, t.calls[i].requested))
  {
    var c := s.calls[i];
    assert LooksLike(c, t.calls[i]);
    assert c.phase.left - s.Cleaned(c.pkg) == c.requested - t.Cleaned(c.pkg);
    UpdatedAlike(s.cleaned, t.cleaned, c.pkg, s.Cleaned(c.pkg) + (c.phase.left - s.Cleaned(c.pkg)));
  }

  lemma CheckIsSimple(s: State, i: nat, t: State) returns (u: State)
    requires IsEnabled(s, CheckShared(i)) && Matches(s, t)
    ensures IsSimpleRun(t, Simplified(s, CheckShared(i)), u) && Matches(Do(s, CheckShared(i)), u)
  {
    var c, steps := s.calls[i], Simplified(s, CheckShared(i));
    assert LooksLike(c, t.calls[i]);
    assert s.Cleaned(c.pkg) == t.Cleaned(c.pkg);
    if steps == [] {
      u := t;
    } else {
      u := Take(t, i, c.requested);
      NothingTaken(t, i);
      assert steps[1..] == [];
    }
  }

  lemma StepIsSimple(s: State, a: Step, t: State) returns (u: State)
    requires IsInvariant(s) && IsEnabled(s, a) && Matches(s, t)
    ensures IsSimpleRun(t, Simplified(s, a), u) && Matches(Do(s, a), u)
  {
    hide IsDisjoint, IsClaimed, IsAccounted;
    if a.CheckShared? {
      u := CheckIsSimple(s, a.i, t);
    } else {
      if a.ClaimExclusive? {
        assert IsAccounted(s, s.calls[a.i]);
        ClaimIsSimple(s, a.i, t);
      }
      u := DoSimply(t, a);
      assert Simplified(s, a)[1..] == [];
    }
  }

  lemma {:induction false} SimpleRunsCompose(s: State, x: seq<Step>, t: State, y: seq<Step>, u: State)
    requires IsSimpleRun(s, x, t) && IsSimpleRun(t, y, u)
    ensures IsSimpleRun(s, x + y, u)
    decreases |x|
  {
    if x == [] {
      assert x + y == y;
    } else {
      SimpleRunsCompose(DoSimply(s, x[0]), x[1..], t, y, u);
      assert (x + y)[1..] == x[1..] + y;
    }
  }

  lemma {:induction false} RunIsSimple(s: State, steps: seq<Step>, end: State,
                                       t: State) returns (simple: seq<Step>, u: State)
    requires IsInvariant(s) && IsRun(s, steps, end) && Matches(s, t)
    ensures IsSimpleRun(t, simple, u) && Matches(end, u)
    decreases |steps|
  {
    hide IsInvariant, Matches;
    if steps == [] {
      simple, u := [], t;
    } else {
      var a := steps[0];
      var v := StepIsSimple(s, a, t);
      RunKeepsInvariant(s, [a], Do(s, a));
      var rest, w := RunIsSimple(Do(s, a), steps[1..], end, v);
      SimpleRunsCompose(t, Simplified(s, a), v, rest, w);
      simple, u := Simplified(s, a) + rest, w;
    }
  }

  /** The way back: a simple step is the shared check followed, if anything is left, by the claim. */
  function Realized(s: State, a: Step): seq<Step>
    requires IsSimplyEnabled(s, a)
  {
    match a
    case ClaimExclusive(i) =>
      if s.calls[i].requested - s.Cleaned(s.calls[i].pkg) == {} then [CheckShared(i)]
      else [CheckShared(i), ClaimExclusive(i)]
    case _ => [a]
  }

  /** No call is between the shared and the exclusive lock. */
  predicate IsSettled(s: State) {
    forall i | i in s.calls :: !s.calls[i].phase.Claiming?
  }

  lemma SimpleStepIsReal(s: State, a: Step, t: State) returns (u: State)
    requires IsSimplyEnabled(t, a) && Matches(s, t) && IsSettled(s)
    ensures IsRun(s, Realized(t, a), u) && Matches(u, DoSimply(t, a)) && IsSettled(u)
  {
    var steps := Realized(t, a);
    if !a.ClaimExclusive? {
      u := Do(s, a);
      assert steps[1..] == [];
    } else {
      u := ClaimIsReal(s, a.i, t);
    }
  }

  lemma NothingTaken(t: State, i: nat)
    requires i in t.calls && t.calls[i].requested - t.Cleaned(t.calls[i].pkg) == {}
    ensures var u := Take(t, i, t.calls[i].requested);
            AreAlike(t.cleaned, u.cleaned) && u.installed == t.installed && u.calls == t.Set(i, Finished({})).calls
  {
    var p := t.calls[i].pkg;
    assert t.Cleaned(p) + {} == t.Cleaned(p);
  }

  lemma ClaimIsReal(s: State, i: nat, t: State) returns (u: State)
    requires IsSimplyEnabled(t, ClaimExclusive(i)) && Matches(s, t) && IsSettled(s)
    ensures IsRun(s, Realized(t, ClaimExclusive(i)), u) && Matches(u, Take(t, i, t.calls[i].requested)) && IsSettled(u)
  {
    var c := s.calls[i];
    assert LooksLike(c, t.calls[i]) && s.Cleaned(c.pkg) == t.Cleaned(c.pkg);
    var steps, left := Realized(t, ClaimExclusive(i)), c.requested - s.Cleaned(c.pkg);
    var v := Do(s, CheckShared(i));
    assert left - s.Cleaned(c.pkg) == left;
    if left == {} {
      u := v;
      assert steps[1..] == [];
      NothingTaken(t, i);
    } else {
      u := Do(v, ClaimExclusive(i));
      UpdatedAlike(s.cleaned, t.cleaned, c.pkg, s.Cleaned(c.pkg) + left);
      assert steps[1..] == [ClaimExclusive(i)] && steps[1..][1..] == [];
    }
  }

  lemma {:induction false} RunsCompose(s: State, x: seq<Step>, t: State, y: seq<Step>, u: State)
    requires IsRun(s, x, t) && IsRun(t, y, u)
    ensures IsRun(s, x + y, u)
    decreases |x|
  {
    if x == [] {
      assert x + y == y;
    } else {
      RunsCompose(Do(s, x[0]), x[1..], t, y, u);
      assert (x + y)[1..] == x[1..] + y;
    }
  }

  lemma {:induction false} SimpleRunIsReal(t: State, simple: seq<Step>, end: State,
                                           s: State) returns (steps: seq<Step>, u: State)
    requires IsSimpleRun(t, simple, end) && Matches(s, t) && IsSettled(s)
    ensures IsRun(s, steps, u) && Matches(u, end)
    decreases |simple|
  {
    hide Matches, IsSettled;
    if simple == [] {
      steps, u := [], s;
    } else {
      var a := simple[0];
      var v := SimpleStepIsReal(s, a, t);
      var rest, w := SimpleRunIsReal(DoSimply(t, a), simple[1..], end, v);
      RunsCompose(s, Realized(t, a), v, rest, w);
      steps, u := Realized(t, a) + rest, w;
    }
  }

  /** The state can be reached, up to calls having passed the shared lock. */
  ghost predicate IsOutcome(installed: set<Package>, s: State) {
    exists steps, u :: IsRun(Initial(installed), steps, u) && Matches(u, s)
  }

  ghost predicate IsSimpleOutcome(installed: set<Package>, s: State) {
    exists simple, t :: IsSimpleRun(Initial(installed), simple, t) && Matches(s, t)
  }

  /** The two protocols have the same outcomes: whatever the one can clean, claim and uninstall,
      the other can. The check under the shared lock only saves work. */
  lemma SharedCheckChangesNoOutcome(installed: set<Package>, steps: seq<Step>, s: State)
    ensures IsRun(Initial(installed), steps, s) ==> IsSimpleOutcome(installed, s)
    ensures IsSimpleRun(Initial(installed), steps, s) ==> IsOutcome(installed, s)
  {
    hide IsInvariant, Matches, IsSettled;
    var start := Initial(installed);
    InitialInvariant(installed);
    if IsRun(start, steps, s) {
      var simple, t := RunIsSimple(start, steps, s, start);
    }
    if IsSimpleRun(start, steps, s) {
      var found, u := SimpleRunIsReal(start, steps, s, start);
    }
  }

  lemma InitialInvariant(installed: set<Package>)
    ensures IsInvariant(Initial(installed)) && IsSettled(Initial(installed))
    ensures Matches(Initial(installed), Initial(installed))
  {
  }
}
