/** The resolver's fallback from the local database to remotes, and its second attempt. */
module ResolverRetry {

  /** How a call of the resolve action ends. */
  datatype Ending = Completed | RaisedLocalDbHash | RaisedOther

  /** What the surroundings answer: whether the settings force the server to be queried, whether
      the local database has an answer, which remotes have one in each round of queries, and how
      the action ends when it is started for the n-th time, given query_local_db. */
  datatype World = World(forceServerQuery: bool, dbAnswers: bool, nRemotes: nat,
                         remoteAnswers: (nat, nat) -> bool, action: (nat, bool) -> Ending)

  datatype Event = QueriedDb(ok: bool) | QueriedRemote(i: nat, ok: bool) | Started(local: bool) | Ended(how: Ending)

  datatype Outcome = Returned | DependencyNotResolved | ActionFailed

  datatype Run = Run(events: seq<Event>, outcome: Outcome)

  // ----- download -----

  /** Hashes from the local database may be stale, so only with them a mismatch is worth a retry. */
  function Download(hashesMatch: bool, queryLocalDb: bool): Ending {
    if hashesMatch then Completed else if queryLocalDb then RaisedLocalDbHash else RaisedOther
  }

  /** An action that downloads packages one after the other. */
  function DownloadAll(matches: seq<bool>, queryLocalDb: bool): Ending {
    if matches == [] then Completed
    else
      var first := Download(matches[0], queryLocalDb);
      if first.Completed? then DownloadAll(matches[1..], queryLocalDb) else first
  }

  predicate AllMatch(matches: seq<bool>) { forall k | 0 <= k < |matches| :: matches[k] }

  /** The action raises a hash exception only while the local database is queried. */
  ghost predicate IsHonest(action: (nat, bool) -> Ending) {
    forall n :: action(n, false) != RaisedLocalDbHash
  }

  lemma {:induction false} DownloadsAreHonest(matches: seq<bool>, queryLocalDb: bool)
    ensures DownloadAll(matches, queryLocalDb) == RaisedLocalDbHash ==> queryLocalDb
    ensures DownloadAll(matches, queryLocalDb) == RaisedOther ==> !queryLocalDb
    ensures DownloadAll(matches, queryLocalDb) == Completed <==> AllMatch(matches)
  {
    if matches != [] {
      DownloadsAreHonest(matches[1..], queryLocalDb);
    }
  }

  /** The action that downloads; at each start it may be given other packages. */
  function Downloading(matches: nat -> seq<bool>): (nat, bool) -> Ending {
    (n: nat, queryLocalDb: bool) => DownloadAll(matches(n), queryLocalDb)
  }

  lemma DownloadingIsHonest(matches: nat -> seq<bool>)
    ensures IsHonest(Downloading(matches))
  {
    forall n: nat
      ensures Downloading(matches)(n, false) != RaisedLocalDbHash
    {
      DownloadsAreHonest(matches(n), false);
    }
  }

  // ----- what happens, without loops -----

  function RemoteFound(w: World, round: nat, i: nat): (j: nat)
    requires i < w.nRemotes
    ensures i <= j <= w.nRemotes
    ensures j < w.nRemotes ==> w.remoteAnswers(round, j)
    ensures forall k | i <= k < j :: !w.remoteAnswers(round, k)
    decreases w.nRemotes - i
  {
    if w.remoteAnswers(round, i) then i
    else if i + 1 < w.nRemotes then RemoteFound(w, round, i + 1)
    else w.nRemotes
  }

  /** The remotes from i on are queried up to the first one that answers. */
  function RemoteEvents(w: World, round: nat, i: nat): seq<Event>
    requires i < w.nRemotes
    decreases w.nRemotes - i
  {
    if w.remoteAnswers(round, i) then [QueriedRemote(i, true)]
    else [QueriedRemote(i, false)] + if i + 1 < w.nRemotes then RemoteEvents(w, round, i + 1) else []
  }

  function RemoteAttempt(w: World, round: nat, i: nat, n: nat, attemptsLeft: nat): Run
    requires i < w.nRemotes
    decreases attemptsLeft
  {
    var j := RemoteFound(w, round, i);
    var queried := RemoteEvents(w, round, i);
    if j == w.nRemotes then Run(queried, DependencyNotResolved)
    else
      var how := w.action(n, false);
      var events := queried + [Started(false), Ended(how)];
      match how
      case Completed => Run(events, Returned)
      case RaisedOther => Run(events, ActionFailed)
      case RaisedLocalDbHash =>
        if attemptsLeft == 0 then Run(events, Returned)
        else
          var again := RemoteAttempt(w, round + 1, j, n + 1, attemptsLeft - 1);
          Run(events + again.events, again.outcome)
  }

  function Script(w: World): Run
    requires w.nRemotes > 0
  {
    if w.forceServerQuery then RemoteAttempt(w, 0, 0, 0, 0)
    else if !w.dbAnswers then
      var r := RemoteAttempt(w, 0, 0, 0, 1);
      Run([QueriedDb(false)] + r.events, r.outcome)
    else
      var how := w.action(0, true);
      var events := [QueriedDb(true), Started(true), Ended(how)];
      match how
      case Completed => Run(events, Returned)
      case RaisedOther => Run(events, ActionFailed)
      case RaisedLocalDbHash =>
        var r := RemoteAttempt(w, 0, 0, 1, 0);
        Run(events + r.events, r.outcome)
  }

  // ----- the loops -----

  class Resolver {
    var currentRemote: nat
    var nextRemote: nat
    var queryLocalDb: bool
    var started: nat
    var round: nat
    ghost var trace: seq<Event>

    constructor ()
      ensures trace == []
    {
      currentRemote, nextRemote, queryLocalDb, started, round, trace := 0, 0, true, 0, 0, [];
    }

    /** Queries the current remote and, as long as one fails and another is left, the next one. */
    method ResolveRemoteDeps(w: World) returns (ok: bool)
      requires nextRemote == currentRemote + 1 <= w.nRemotes
      modifies this
      ensures queryLocalDb == old(queryLocalDb) && started == old(started) && round == old(round) + 1
      ensures trace == old(trace) + RemoteEvents(w, old(round), old(currentRemote))
      ensures ok <==> RemoteFound(w, old(round), old(currentRemote)) < w.nRemotes
      ensures ok ==> currentRemote == RemoteFound(w, old(round), old(currentRemote)) && nextRemote == currentRemote + 1
    {
      var again := true;
      ok := false;
      ghost var goal := trace + RemoteEvents(w, round, currentRemote);
      ghost var found := RemoteFound(w, round, currentRemote);
      while again
        invariant nextRemote == currentRemote + 1 <= w.nRemotes
        invariant again ==>
            trace + RemoteEvents(w, round, currentRemote) == goal && RemoteFound(w, round, currentRemote) == found
        invariant !again ==> ok && trace == goal && currentRemote == found
        invariant queryLocalDb == old(queryLocalDb) && started == old(started) && round == old(round)
        decreases again, w.nRemotes - currentRemote
      {
        again := false;
        AppendAssociates(trace, QueriedRemote(currentRemote, false),
                         if nextRemote < w.nRemotes then RemoteEvents(w, round, nextRemote) else []);
        if w.remoteAnswers(round, currentRemote) {
          ok := true;
          trace := trace + [QueriedRemote(currentRemote, true)];
        } else {
          trace := trace + [QueriedRemote(currentRemote, false)];
          if nextRemote != w.nRemotes {
            currentRemote, nextRemote := nextRemote, nextRemote + 1;
            again := true;
          } else {
            round := round + 1;
            return false;
          }
        }
      }
      round := round + 1;
    }

    /** The action is called; the trace notes its start and its end. */
    method CallAction(w: World) returns (how: Ending)
      modifies this`started, this`trace
      ensures how == w.action(old(started), queryLocalDb) && started == old(started) + 1
      ensures trace == old(trace) + [Started(queryLocalDb), Ended(how)]
    {
      how := w.action(started, queryLocalDb);
      started := started + 1;
      trace := trace + [Started(queryLocalDb), Ended(how)];
    }

    method Resolve(w: World) returns (outcome: Outcome)
      requires w.nRemotes > 0
      modifies this
      ensures Run(trace, outcome) == Script(w)
    {
      hide IsAhead, Script, RemoteAttempt, RemoteEvents, RemoteFound;
      currentRemote, nextRemote, started, round, trace := 0, 1, 0, 0, [];
      queryLocalDb := !w.forceServerQuery;
      var attempts: nat := if queryLocalDb then 2 else 1;
      StartIsAhead(w);
      while attempts > 0
        invariant nextRemote == currentRemote + 1 <= w.nRemotes
        invariant IsAhead(w, trace, attempts, queryLocalDb, round, currentRemote, started)
        decreases attempts
      {
        attempts := attempts - 1;
        var ok := true;
        LocalStep(w, trace, attempts + 1, queryLocalDb, round, currentRemote, started);
        RemoteStep(w, if queryLocalDb then [QueriedDb(false)] else trace, attempts + 1, round, currentRemote, started);
        if queryLocalDb {
          assert [] + [QueriedDb(false)] == [QueriedDb(false)];
          trace := trace + [QueriedDb(w.dbAnswers)];
          if !w.dbAnswers {
            queryLocalDb := false;
            ok := ResolveRemoteDeps(w);
          }
        } else {
          ok := ResolveRemoteDeps(w);
        }
        if !ok {
          return DependencyNotResolved;
        }
        var how := CallAction(w);
        match how {
          case RaisedLocalDbHash => queryLocalDb := false;
          case Completed => return Returned;
          case RaisedOther => return ActionFailed;
        }
      }
      RanOut(w, trace, queryLocalDb, round, currentRemote, started);
      return Returned;
    }
  }

  lemma AppendAssociates(a: seq<Event>, e: Event, b: seq<Event>)
    ensures a + [e] + b == a + ([e] + b)
    ensures a + [e] + [] == a + [e]
  {
  }

  /** What is still to happen completes the trace to the script. */
  ghost predicate IsAhead(w: World, trace: seq<Event>, attempts: nat, queryLocalDb: bool, round: nat,
                          remote: nat, started: nat)
    requires remote < w.nRemotes
  {
    if queryLocalDb then
      !w.forceServerQuery && attempts == 2 && trace == [] && round == remote == started == 0
    else if attempts == 0 then
      Run(trace, Returned) == Script(w)
    else
      var r := RemoteAttempt(w, round, remote, started, attempts - 1);
      Run(trace + r.events, r.outcome) == Script(w)
  }

  lemma RanOut(w: World, trace: seq<Event>, queryLocalDb: bool, round: nat, remote: nat, started: nat)
    requires remote < w.nRemotes && IsAhead(w, trace, 0, queryLocalDb, round, remote, started)
    ensures Run(trace, Returned) == Script(w)
  {
  }

  lemma StartIsAhead(w: World)
    requires w.nRemotes > 0
    ensures IsAhead(w, [], if w.forceServerQuery then 1 else 2, !w.forceServerQuery, 0, 0, 0)
  {
    if w.forceServerQuery {
      var r := RemoteAttempt(w, 0, 0, 0, 0);
      assert [] + r.events == r.events;
    }
  }

  /** The first attempt, while the local database is queried. */
  lemma LocalStep(w: World, trace: seq<Event>, attempts: nat, queryLocalDb: bool, round: nat, remote: nat, started: nat)
    requires remote < w.nRemotes && IsAhead(w, trace, attempts, queryLocalDb, round, remote, started)
    ensures queryLocalDb ==> attempts == 2 && trace == [] && round == remote == started == 0
    ensures queryLocalDb && !w.dbAnswers ==> IsAhead(w, [QueriedDb(false)], 2, false, 0, 0, 0)
    ensures queryLocalDb && w.dbAnswers ==>
              var how := w.action(0, true);
              var next := trace + [QueriedDb(true)] + [Started(true), Ended(how)];
              && (how.Completed? ==> Run(next, Returned) == Script(w))
              && (how.RaisedOther? ==> Run(next, ActionFailed) == Script(w))
              && (how.RaisedLocalDbHash? ==> IsAhead(w, next, 1, false, 0, 0, 1))
  {
    hide RemoteEvents, RemoteAttempt;
    assert trace == [] ==> trace + [QueriedDb(true)] + [Started(true), Ended(w.action(0, true))]
                           == [QueriedDb(true), Started(true), Ended(w.action(0, true))];
  }

  /** An attempt with remotes. */
  lemma RemoteStep(w: World, trace: seq<Event>, attempts: nat, round: nat, remote: nat, started: nat)
    requires remote < w.nRemotes && attempts > 0
    ensures IsAhead(w, trace, attempts, false, round, remote, started) ==>
              var j := RemoteFound(w, round, remote);
              var queried := trace + RemoteEvents(w, round, remote);
              if j == w.nRemotes then Run(queried, DependencyNotResolved) == Script(w)
              else
                var how := w.action(started, false);
                var next := queried + [Started(false), Ended(how)];
                && (how.Completed? ==> Run(next, Returned) == Script(w))
                && (how.RaisedOther? ==> Run(next, ActionFailed) == Script(w))
                && (how.RaisedLocalDbHash? ==> IsAhead(w, next, attempts - 1, false, round + 1, j, started + 1))
  {
    hide Script, RemoteEvents;
    var j := RemoteFound(w, round, remote);
    var queried := RemoteEvents(w, round, remote);
    if j < w.nRemotes {
      var last := [Started(false), Ended(w.action(started, false))];
      assert trace + (queried + last) == trace + queried + last;
      if attempts > 1 {
        var again := RemoteAttempt(w, round + 1, j, started + 1, attempts - 2);
        assert trace + (queried + last + again.events) == trace + queried + last + again.events;
      }
    }
  }

  // ----- what holds of every run -----

  function Starts(events: seq<Event>): nat {
    if events == [] then 0 else (if events[0].Started? then 1 else 0) + Starts(events[1..])
  }

  /** The remotes in the order in which they were queried. */
  function Queried(events: seq<Event>): seq<Event> {
    if events == [] then []
    else if events[0].QueriedRemote? then [events[0]] + Queried(events[1..]) else Queried(events[1..])
  }

  lemma {:induction false} QueriedOfBoth(a: seq<Event>, b: seq<Event>)
    ensures Queried(a + b) == Queried(a) + Queried(b) && Starts(a + b) == Starts(a) + Starts(b)
  {
    if a == [] {
      assert a + b == b;
    } else {
      QueriedOfBoth(a[1..], b);
      assert (a + b)[1..] == a[1..] + b;
    }
  }

  /** Consecutive remotes from i on, up to the first one that answers or to the last one. */
  ghost predicate IsInListOrder(w: World, round: nat, i: nat, queried: seq<Event>) {
    && (forall k | 0 <= k < |queried| :: queried[k] == QueriedRemote(i + k, w.remoteAnswers(round, i + k)))
    && (forall k | 0 <= k < |queried| - 1 :: !queried[k].ok)
    && i + |queried| <= w.nRemotes
    && (queried != [] && !queried[|queried| - 1].ok ==> i + |queried| == w.nRemotes)
  }

  lemma {:induction false} RemotesInOrder(w: World, round: nat, i: nat)
    requires i < w.nRemotes
    ensures var q := RemoteEvents(w, round, i);
            && Queried(q) == q && q != [] && Starts(q) == 0 && IsInListOrder(w, round, i, q)
            && q[|q| - 1].QueriedRemote? && (q[|q| - 1].ok <==> RemoteFound(w, round, i) < w.nRemotes)
    decreases w.nRemotes - i
  {
    hide Queried, Starts, IsInListOrder;
    var first := QueriedRemote(i, w.remoteAnswers(round, i));
    if !first.ok && i + 1 < w.nRemotes {
      RemotesInOrder(w, round, i + 1);
      var rest := RemoteEvents(w, round, i + 1);
      QueriedOfFirst(first, rest);
      OrderedBefore(w, round, i, rest);
      assert RemoteEvents(w, round, i) == [first] + rest;
    } else {
      QueriedAlone(w, round, i);
      assert [first] + [] == [first] == RemoteEvents(w, round, i);
    }
  }

  lemma QueriedAlone(w: World, round: nat, i: nat)
    requires i < w.nRemotes && (w.remoteAnswers(round, i) || i + 1 == w.nRemotes)
    ensures var q := [QueriedRemote(i, w.remoteAnswers(round, i))];
            Queried(q) == q && Starts(q) == 0 && IsInListOrder(w, round, i, q)
  {
    var q := [QueriedRemote(i, w.remoteAnswers(round, i))];
    assert q[1..] == [];
    assert Queried(q) == [q[0]] + Queried(q[1..]) && Starts(q) == Starts(q[1..]);
  }

  lemma QueriedOfFirst(first: Event, rest: seq<Event>)
    requires first.QueriedRemote?
    ensures Queried([first] + rest) == [first] + Queried(rest) && Starts([first] + rest) == Starts(rest)
  {
    assert ([first] + rest)[1..] == rest;
  }

  lemma OrderedBefore(w: World, round: nat, i: nat, rest: seq<Event>)
    requires !w.remoteAnswers(round, i) && rest != [] && IsInListOrder(w, round, i + 1, rest)
    ensures IsInListOrder(w, round, i, [QueriedRemote(i, false)] + rest)
  {
    var q := [QueriedRemote(i, false)] + rest;
    forall k | 0 <= k < |q|
      ensures q[k] == QueriedRemote(i + k, w.remoteAnswers(round, i + k))
      ensures k < |q| - 1 ==> !q[k].ok
    {
      if k > 0 {
        assert rest[k - 1] == QueriedRemote(i + 1 + (k - 1), w.remoteAnswers(round, i + 1 + (k - 1)));
      }
    }
    assert q[|q| - 1] == rest[|rest| - 1];
  }

  lemma ActionEvents(local: bool, how: Ending)
    ensures Starts([Started(local), Ended(how)]) == 1 && Queried([Started(local), Ended(how)]) == []
  {
    var both, one := [Started(local), Ended(how)], [Ended(how)];
    assert both[1..] == one && one[1..] == [];
    assert Starts(one) == Starts(one[1..]) && Queried(one) == Queried(one[1..]);
    assert Starts(both) == 1 + Starts(both[1..]) && Queried(both) == Queried(both[1..]);
  }

  /** An attempt with remotes starts the action at most once for each attempt that is left. */
  lemma {:induction false} AttemptStarts(w: World, round: nat, i: nat, n: nat, attemptsLeft: nat)
    requires i < w.nRemotes
    ensures Starts(RemoteAttempt(w, round, i, n, attemptsLeft).events) <= attemptsLeft + 1
    decreases attemptsLeft
  {
    hide RemoteEvents, Queried;
    RemotesInOrder(w, round, i);
    var j, how := RemoteFound(w, round, i), w.action(n, false);
    if j < w.nRemotes {
      var events := RemoteEvents(w, round, i) + [Started(false), Ended(how)];
      QueriedOfBoth(RemoteEvents(w, round, i), [Started(false), Ended(how)]);
      ActionEvents(false, how);
      if how.RaisedLocalDbHash? && attemptsLeft > 0 {
        AttemptStarts(w, round + 1, j, n + 1, attemptsLeft - 1);
        QueriedOfBoth(events, RemoteAttempt(w, round + 1, j, n + 1, attemptsLeft - 1).events);
      }
    }
  }

  lemma LocalEvents(ok: bool, how: Ending)
    ensures Starts([QueriedDb(ok)]) == 0 && Queried([QueriedDb(ok)]) == []
    ensures Starts([QueriedDb(true), Started(true), Ended(how)]) == 1
    ensures Queried([QueriedDb(true), Started(true), Ended(how)]) == []
  {
    ActionEvents(true, how);
    var all, one := [QueriedDb(true), Started(true), Ended(how)], [QueriedDb(ok)];
    assert all[1..] == [Started(true), Ended(how)] && one[1..] == [];
    assert Starts(one) == Starts(one[1..]) && Queried(one) == Queried(one[1..]);
    assert Starts(all) == Starts(all[1..]) && Queried(all) == Queried(all[1..]);
  }

  /** The action is started at most twice, whatever it raises. */
  lemma AtMostTwoStarts(w: World)
    requires w.nRemotes > 0
    ensures Starts(Script(w).events) <= 2
  {
    hide RemoteAttempt, Starts, Queried;
    var how := w.action(0, true);
    LocalEvents(false, how);
    AttemptStarts(w, 0, 0, 0, 0);
    AttemptStarts(w, 0, 0, 0, 1);
    AttemptStarts(w, 0, 0, 1, 0);
    QueriedOfBoth([QueriedDb(false)], RemoteAttempt(w, 0, 0, 0, 1).events);
    QueriedOfBoth([QueriedDb(true), Started(true), Ended(how)], RemoteAttempt(w, 0, 0, 1, 0).events);
  }

  ghost predicate EndsCompleted(events: seq<Event>) {
    events != [] && events[|events| - 1] == Ended(Completed)
  }

  /** An attempt with remotes and an honest action: one round of queries, and no second attempt. */
  lemma HonestAttempt(w: World, round: nat, n: nat, attemptsLeft: nat)
    requires w.nRemotes > 0 && w.action(n, false) != RaisedLocalDbHash
    ensures var r := RemoteAttempt(w, round, 0, n, attemptsLeft);
            && IsInListOrder(w, round, 0, Queried(r.events)) && Queried(r.events) != []
            && (r.outcome.Returned? ==> EndsCompleted(r.events))
            && (r.outcome.DependencyNotResolved? <==> AllFailed(w, Queried(r.events)))
  {
    hide RemoteEvents, Queried;
    RemotesInOrder(w, round, 0);
    var queried, how := RemoteEvents(w, round, 0), w.action(n, false);
    QueriedOfBoth(queried, [Started(false), Ended(how)]);
    ActionEvents(false, how);
    assert queried + [] == queried;
    AllFailedIffLastDid(w, round, queried);
  }

  lemma AllFailedIffLastDid(w: World, round: nat, queried: seq<Event>)
    requires queried != [] && IsInListOrder(w, round, 0, queried)
    ensures queried[|queried| - 1].QueriedRemote?
    ensures AllFailed(w, queried) <==> !queried[|queried| - 1].ok
  {
    var last := |queried| - 1;
    assert queried[last] == QueriedRemote(0 + last, w.remoteAnswers(round, 0 + last));
    if !queried[last].ok {
      forall k | 0 <= k < |queried|
        ensures queried[k] == QueriedRemote(k, false)
      {
        assert queried[k] == QueriedRemote(0 + k, w.remoteAnswers(round, 0 + k));
      }
    }
  }

  /** With an honest action: a normal return means that the last start of the action completed;
      the remotes are queried at most once each, in list order, until one answers; and the
      dependencies are given up only when every remote has failed. */
  lemma EveryRunIsSound(w: World)
    requires w.nRemotes > 0 && IsHonest(w.action)
    ensures var r := Script(w);
            && (r.outcome.Returned? ==> EndsCompleted(r.events))
            && IsInListOrder(w, 0, 0, Queried(r.events))
            && (r.outcome.DependencyNotResolved? <==> AllFailed(w, Queried(r.events)))
  {
    hide RemoteAttempt, Queried, IsInListOrder, AllFailed;
    var how := w.action(0, true);
    LocalEvents(false, how);
    HonestAttempt(w, 0, 0, 0);
    HonestAttempt(w, 0, 0, 1);
    HonestAttempt(w, 0, 1, 0);
    QueriedOfBoth([QueriedDb(false)], RemoteAttempt(w, 0, 0, 0, 1).events);
    QueriedOfBoth([QueriedDb(true), Started(true), Ended(how)], RemoteAttempt(w, 0, 0, 1, 0).events);
    NoQueries(w);
  }

  ghost predicate SomeRemoteAnswers(w: World) {
    exists j: nat :: j < w.nRemotes && w.remoteAnswers(0, j)
  }

  /** When the resolver returns: all hashes match at the first start, or the first start took them
      from the local database, and all match at the second one, with the remotes' answer. */
  ghost predicate DownloadsEverything(w: World, matches: nat -> seq<bool>) {
    if w.forceServerQuery || !w.dbAnswers then SomeRemoteAnswers(w) && AllMatch(matches(0))
    else AllMatch(matches(0)) || (SomeRemoteAnswers(w) && AllMatch(matches(1)))
  }

  /** The resolver with the action it is used with. */
  lemma DownloadingRunIsSound(w: World, matches: nat -> seq<bool>)
    requires w.nRemotes > 0 && w.action == Downloading(matches)
    ensures var r := Script(w);
            && (r.outcome.Returned? <==> DownloadsEverything(w, matches))
            && (r.outcome.Returned? ==> EndsCompleted(r.events))
            && IsInListOrder(w, 0, 0, Queried(r.events))
            && (r.outcome.DependencyNotResolved? <==> AllFailed(w, Queried(r.events)))
  {
    hide RemoteEvents, Queried, IsInListOrder, AllFailed, EndsCompleted, DownloadAll;
    DownloadingIsHonest(matches);
    EveryRunIsSound(w);
    DownloadsAreHonest(matches(0), true);
    DownloadsAreHonest(matches(0), false);
    DownloadsAreHonest(matches(1), false);
    assert SomeRemoteAnswers(w) <==> RemoteFound(w, 0, 0) < w.nRemotes;
  }

  lemma NoQueries(w: World)
    requires w.nRemotes > 0
    ensures IsInListOrder(w, 0, 0, []) && !AllFailed(w, [])
    ensures forall q: seq<Event> :: [] + q == q
  {
  }

  ghost predicate AllFailed(w: World, queried: seq<Event>) {
    |queried| == w.nRemotes && forall k | 0 <= k < |queried| :: queried[k] == QueriedRemote(k, false)
  }

  /** Exactly which actions resolve can trust: were it to end in a hash exception without the
      local database, the attempts would run out and resolve would return as if all was well. */
  lemma ReturnMeansCompletedIff(action: (nat, bool) -> Ending)
    ensures (forall w: World | w.nRemotes > 0 && w.action == action && Script(w).outcome.Returned? ::
               EndsCompleted(Script(w).events))
       <==> (action(0, false) != RaisedLocalDbHash
             && (action(0, true) == RaisedLocalDbHash ==> action(1, false) != RaisedLocalDbHash))
  {
    if action(0, false) == RaisedLocalDbHash {
      var w := World(true, true, 1, (r, i) => true, action);
      assert Script(w).outcome.Returned? && Script(w).events[|Script(w).events| - 1] == Ended(RaisedLocalDbHash);
    } else if action(0, true) == RaisedLocalDbHash && action(1, false) == RaisedLocalDbHash {
      var w := World(false, true, 1, (r, i) => true, action);
      assert Script(w).outcome.Returned? && Script(w).events[|Script(w).events| - 1] == Ended(RaisedLocalDbHash);
    } else {
      forall w: World | w.nRemotes > 0 && w.action == action && Script(w).outcome.Returned?
        ensures EndsCompleted(Script(w).events)
      {
        HonestAttempt(w, 0, 0, 0);
        HonestAttempt(w, 0, 0, 1);
        if action(0, true) == RaisedLocalDbHash {
          HonestAttempt(w, 0, 1, 0);
        }
      }
    }
  }

  // ----- the order of the remotes -----

  /** No remote is queried after a later one. */
  ghost predicate GoesForward(lo: nat, queried: seq<Event>, hi: nat) {
    && (forall k | 0 <= k < |queried| :: queried[k].QueriedRemote? && lo <= queried[k].i <= hi)
    && (forall j, k | 0 <= j < k < |queried| :: queried[j].i <= queried[k].i)
  }

  lemma ForwardInBoth(lo: nat, a: seq<Event>, mid: nat, b: seq<Event>, hi: nat)
    requires GoesForward(lo, a, mid) && GoesForward(mid, b, hi) && lo <= mid <= hi
    ensures GoesForward(lo, a + b, hi)
  {
  }

  lemma {:induction false} RemotesGoForward(w: World, round: nat, i: nat)
    requires i < w.nRemotes
    ensures var j := RemoteFound(w, round, i);
            GoesForward(i, Queried(RemoteEvents(w, round, i)), if j < w.nRemotes then j else w.nRemotes)
    decreases w.nRemotes - i
  {
    hide Queried, GoesForward;
    var first := QueriedRemote(i, w.remoteAnswers(round, i));
    OneGoesForward(w, round, i);
    if !first.ok && i + 1 < w.nRemotes {
      RemotesGoForward(w, round, i + 1);
      var rest := RemoteEvents(w, round, i + 1);
      var j := RemoteFound(w, round, i + 1);
      QueriedOfFirst(first, rest);
      ForwardInBoth(i, [first], i + 1, Queried(rest), if j < w.nRemotes then j else w.nRemotes);
    } else {
      QueriedAlone(w, round, i);
      assert [first] + [] == [first] == RemoteEvents(w, round, i);
    }
  }

  lemma OneGoesForward(w: World, round: nat, i: nat)
    ensures forall hi | i <= hi :: GoesForward(i, [QueriedRemote(i, w.remoteAnswers(round, i))], hi)
  {
  }

  lemma {:induction false} AttemptGoesForward(w: World, round: nat, i: nat, n: nat, attemptsLeft: nat)
    requires i < w.nRemotes
    ensures GoesForward(i, Queried(RemoteAttempt(w, round, i, n, attemptsLeft).events), w.nRemotes)
    decreases attemptsLeft
  {
    hide RemoteEvents, Queried, GoesForward;
    RemotesGoForward(w, round, i);
    var j, how := RemoteFound(w, round, i), w.action(n, false);
    if j < w.nRemotes {
      var queried := RemoteEvents(w, round, i);
      var events := queried + [Started(false), Ended(how)];
      QueriedOfBoth(queried, [Started(false), Ended(how)]);
      ActionEvents(false, how);
      assert Queried(queried) + [] == Queried(queried);
      var rest := if how.RaisedLocalDbHash? && attemptsLeft > 0
                  then RemoteAttempt(w, round + 1, j, n + 1, attemptsLeft - 1).events else [];
      NothingGoesForward(j, w.nRemotes);
      if rest != [] {
        AttemptGoesForward(w, round + 1, j, n + 1, attemptsLeft - 1);
      }
      QueriedOfBoth(events, rest);
      assert events + [] == events;
      ForwardInBoth(i, Queried(events), j, Queried(rest), w.nRemotes);
    }
  }

  lemma NothingGoesForward(lo: nat, hi: nat)
    ensures Queried([]) == [] && GoesForward(lo, [], hi)
  {
  }

  /** Whatever the action raises, a later attempt goes on with the remote that answered. */
  lemma RemotesNeverGoBack(w: World)
    requires w.nRemotes > 0
    ensures GoesForward(0, Queried(Script(w).events), w.nRemotes)
  {
    hide RemoteAttempt, Queried, GoesForward;
    var how := w.action(0, true);
    AttemptGoesForward(w, 0, 0, 0, 0);
    AttemptGoesForward(w, 0, 0, 0, 1);
    AttemptGoesForward(w, 0, 0, 1, 0);
    LocalEvents(false, how);
    LocalEvents(true, how);
    NothingGoesForward(0, w.nRemotes);
    NoQueries(w);
    QueriedOfBoth([QueriedDb(false)], RemoteAttempt(w, 0, 0, 0, 1).events);
    QueriedOfBoth([QueriedDb(true), Started(true), Ended(how)], RemoteAttempt(w, 0, 0, 1, 0).events);
  }

  // ----- the local database -----

  /** What a run has to do with the local database: queries, and actions that use its answer. */
  function OfDatabase(events: seq<Event>): seq<Event> {
    if events == [] then []
    else if events[0].QueriedDb? || events[0] == Started(true) then [events[0]] + OfDatabase(events[1..])
    else OfDatabase(events[1..])
  }

  lemma {:induction false} OfDatabaseInBoth(a: seq<Event>, b: seq<Event>)
    ensures OfDatabase(a + b) == OfDatabase(a) + OfDatabase(b)
  {
    if a == [] {
      assert a + b == b;
    } else {
      OfDatabaseInBoth(a[1..], b);
      assert (a + b)[1..] == a[1..] + b;
    }
  }

  lemma {:induction false} RemotesAreNoDatabase(w: World, round: nat, i: nat)
    requires i < w.nRemotes
    ensures OfDatabase(RemoteEvents(w, round, i)) == []
    decreases w.nRemotes - i
  {
    var first := QueriedRemote(i, w.remoteAnswers(round, i));
    var rest := if !first.ok && i + 1 < w.nRemotes then RemoteEvents(w, round, i + 1) else [];
    if rest != [] {
      RemotesAreNoDatabase(w, round, i + 1);
    }
    assert RemoteEvents(w, round, i) == [first] + rest;
    assert ([first] + rest)[1..] == rest;
  }

  lemma ActionIsOfDatabase(local: bool, how: Ending)
    ensures OfDatabase([Started(local), Ended(how)]) == if local then [Started(true)] else []
  {
    var both, one := [Started(local), Ended(how)], [Ended(how)];
    assert both[1..] == one && one[1..] == [];
    assert OfDatabase(one) == OfDatabase(one[1..]);
    assert OfDatabase(both) == if local then [both[0]] + OfDatabase(both[1..]) else OfDatabase(both[1..]);
  }

  lemma {:induction false} AttemptIsNoDatabase(w: World, round: nat, i: nat, n: nat, attemptsLeft: nat)
    requires i < w.nRemotes
    ensures OfDatabase(RemoteAttempt(w, round, i, n, attemptsLeft).events) == []
    decreases attemptsLeft
  {
    hide RemoteEvents, OfDatabase;
    RemotesAreNoDatabase(w, round, i);
    var j, how := RemoteFound(w, round, i), w.action(n, false);
    if j < w.nRemotes {
      var events := RemoteEvents(w, round, i) + [Started(false), Ended(how)];
      OfDatabaseInBoth(RemoteEvents(w, round, i), [Started(false), Ended(how)]);
      ActionIsOfDatabase(false, how);
      if how.RaisedLocalDbHash? && attemptsLeft > 0 {
        AttemptIsNoDatabase(w, round + 1, j, n + 1, attemptsLeft - 1);
        OfDatabaseInBoth(events, RemoteAttempt(w, round + 1, j, n + 1, attemptsLeft - 1).events);
      }
    }
  }

  /** The local database is left alone if the settings say so; otherwise it is queried first and
      only once, and one action uses its answer if it has one. The remotes are left alone while
      that action does not raise a hash exception. */
  lemma DatabaseIsQueriedOnce(w: World)
    requires w.nRemotes > 0
    ensures var events := Script(w).events;
            if w.forceServerQuery then OfDatabase(events) == []
            else
              && events != [] && events[0] == QueriedDb(w.dbAnswers)
              && OfDatabase(events) == [QueriedDb(w.dbAnswers)] + (if w.dbAnswers then [Started(true)] else [])
              && (w.dbAnswers && w.action(0, true) != RaisedLocalDbHash ==> Queried(events) == [])
  {
    hide RemoteAttempt, OfDatabase, Queried;
    var how := w.action(0, true);
    AttemptIsNoDatabase(w, 0, 0, 0, 0);
    AttemptIsNoDatabase(w, 0, 0, 0, 1);
    AttemptIsNoDatabase(w, 0, 0, 1, 0);
    DatabaseEvents(how);
    LocalEvents(true, how);
    OfDatabaseInBoth([QueriedDb(false)], RemoteAttempt(w, 0, 0, 0, 1).events);
    OfDatabaseInBoth([QueriedDb(true), Started(true), Ended(how)], RemoteAttempt(w, 0, 0, 1, 0).events);
  }

  lemma DatabaseEvents(how: Ending)
    ensures OfDatabase([QueriedDb(false)]) == [QueriedDb(false)]
    ensures OfDatabase([QueriedDb(true), Started(true), Ended(how)]) == [QueriedDb(true), Started(true)]
  {
    var all, one := [QueriedDb(true), Started(true), Ended(how)], [QueriedDb(false)];
    ActionIsOfDatabase(true, how);
    assert all[1..] == [Started(true), Ended(how)] && one[1..] == [];
    assert OfDatabase(all) == [all[0]] + OfDatabase(all[1..]) && OfDatabase(one) == [one[0]] + OfDatabase(one[1..]);
  }
}
