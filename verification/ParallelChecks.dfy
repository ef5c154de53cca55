/** Distributing configuration checks over workers and merging what the workers did. */
module ParallelChecks {

  datatype Kind =
    | Function | Include | Type | Alignment | Library | LibraryFunction | Symbol | StructMember
    | CSourceCompiles | CSourceRuns | CXXSourceCompiles | CXXSourceRuns | Decl | Custom

  /** A check is known by its kind, its variable and its parameters. */
  datatype Check = Check(kind: Kind, variable: string, parameters: string)

  /** The checks that take part in parallel work. */
  function Parallel(checks: set<Check>): set<Check> {
    set c | c in checks && !c.kind.Decl?
  }

  function Unknown(checks: set<Check>, knownVars: set<string>): set<Check> {
    set c | c in checks && c.variable !in knownVars
  }

  // ----- even distribution -----

  /** Each of the checks is in exactly one of the workers, and nothing else is in any. */
  ghost predicate IsPartition(workers: seq<set<Check>>, checks: set<Check>) {
    && (forall k | 0 <= k < |workers| :: workers[k] <= checks)
    && (forall c | c in checks :: exists k :: 0 <= k < |workers| && c in workers[k])
    && (forall j, k | 0 <= j < k < |workers| :: workers[j] !! workers[k])
  }

  /** After q full rounds and r more checks. */
  ghost predicate IsDealt(workers: seq<set<Check>>, q: nat, r: nat) {
    forall k | 0 <= k < |workers| :: |workers[k]| == if k < r then q + 1 else q
  }

  ghost predicate IsEven(workers: seq<set<Check>>) {
    forall j, k | 0 <= j < |workers| && 0 <= k < |workers| :: |workers[j]| <= |workers[k]| + 1
  }

  lemma RemainderIs(q: nat, n: nat, r: nat)
    requires r < n
    ensures (q * n + r) % n == r
  {
    var x := q * n + r;
    var d, m := x / n, x % n;
    assert (q - d) * n == q * n - d * n == m - r;
    if q > d {
      AtLeast(q - d, n);
    } else if q < d {
      assert (d - q) * n == r - m;
      AtLeast(d - q, n);
    }
  }

  lemma AtLeast(a: nat, n: nat)
    requires a > 0
    ensures a * n >= n
  {
  }

  /** Dealing one more check to the worker whose turn it is. */
  lemma DealKeepsPartition(workers: seq<set<Check>>, done: set<Check>, c: Check, r: nat)
    requires r < |workers| && IsPartition(workers, done) && c !in done
    ensures IsPartition(workers[r := workers[r] + {c}], done + {c})
  {
    var dealt := workers[r := workers[r] + {c}];
    forall d | d in done + {c}
      ensures exists k :: 0 <= k < |dealt| && d in dealt[k]
    {
      if d == c {
        assert d in dealt[r];
      } else {
        var k :| 0 <= k < |workers| && d in workers[k];
        assert d in dealt[k];
      }
    }
    forall j, k | 0 <= j < k < |dealt|
      ensures dealt[j] !! dealt[k]
    {
      assert workers[j] !! workers[k] && c !in workers[j] && c !in workers[k];
    }
  }

  lemma DealKeepsEven(workers: seq<set<Check>>, done: set<Check>, c: Check, q: nat, r: nat)
    requires r < |workers| && IsDealt(workers, q, r) && workers[r] <= done && c !in done
    ensures var dealt := workers[r := workers[r] + {c}];
            if r + 1 < |workers| then IsDealt(dealt, q, r + 1) else IsDealt(dealt, q + 1, 0)
  {
    assert |workers[r] + {c}| == |workers[r]| + 1;
  }

  lemma DealOne(workers: seq<set<Check>>, done: set<Check>, c: Check, q: nat, r: nat)
    requires r < |workers| && IsDealt(workers, q, r) && IsPartition(workers, done) && c !in done
    ensures var dealt := workers[r := workers[r] + {c}];
            && IsPartition(dealt, done + {c})
            && (if r + 1 < |workers| then IsDealt(dealt, q, r + 1) else IsDealt(dealt, q + 1, 0))
  {
    hide IsDealt;
    DealKeepsPartition(workers, done, c, r);
    DealKeepsEven(workers, done, c, q, r);
  }

  // ----- the set of checks -----

  class Checks {
    var checks: set<Check>

    constructor (checks: set<Check>)
      ensures this.checks == checks
    {
      this.checks := checks;
    }

    method RemoveKnownVars(knownVars: set<string>)
      modifies this
      ensures checks == Unknown(old(checks), knownVars)
      ensures forall c :: c in checks <==> c in old(checks) && c.variable !in knownVars
    {
      var todo := checks;
      while todo != {}
        invariant todo <= old(checks)
        invariant checks == set c | c in old(checks) && (c in todo || c.variable !in knownVars)
        decreases |todo|
      {
        var c :| c in todo;
        if c.variable in knownVars {
          checks := checks - {c};
        }
        todo := todo - {c};
      }
    }

    /** Deals the parallel checks to n workers in turn. */
    method Scatter(n: nat) returns (workers: seq<set<Check>>)
      requires n > 0
      ensures |workers| == n && IsPartition(workers, Parallel(checks)) && IsEven(workers)
      ensures forall k, c | 0 <= k < n && c in workers[k] :: !c.kind.Decl?
      ensures forall c | c in checks && !c.kind.Decl? :: exists k :: 0 <= k < n && c in workers[k]
    {
      hide IsPartition, IsDealt;
      workers := seq(n, _ => {});
      var i: nat := 0;
      var todo := checks;
      ghost var q: nat, r: nat := 0, 0;
      NothingDealt(workers);
      assert checks - todo == {};
      while todo != {}
        invariant todo <= checks && |workers| == n
        invariant r < n && i == q * n + r && IsDealt(workers, q, r)
        invariant IsPartition(workers, Parallel(checks - todo))
        decreases |todo|
      {
        var c :| c in todo;
        ghost var done := checks - todo;
        todo := todo - {c};
        assert checks - todo == done + {c};
        if c.kind.Decl? {
          assert Parallel(checks - todo) == Parallel(done);
        } else {
          assert Parallel(checks - todo) == Parallel(done) + {c};
          RemainderIs(q, n, r);
          DealOne(workers, Parallel(done), c, q, r);
          workers := workers[i % n := workers[i % n] + {c}];
          i := i + 1;
          if r + 1 < n {
            r := r + 1;
          } else {
            assert (q + 1) * n == q * n + n;
            q, r := q + 1, 0;
          }
        }
      }
      assert checks - todo == checks;
      DealtIsEven(workers, q, r);
      ParallelIsHeld(workers, checks);
    }

    /** operator+= */
    method Add(rhs: set<Check>)
      modifies this
      ensures checks == old(checks) + rhs
    {
      checks := checks + rhs;
    }

    /** What valid workers hold replaces the checks; a worker that failed is passed over. */
    method Merge(workers: seq<set<Check>>, valid: seq<bool>)
      requires |valid| == |workers|
      modifies this
      ensures checks == Merged(workers, valid)
    {
      checks := {};
      for k := 0 to |workers|
        invariant checks == Merged(workers[..k], valid[..k])
      {
        MergeOneMore(workers, valid, k);
        if valid[k] {
          Add(workers[k]);
        }
      }
      assert workers[..|workers|] == workers && valid[..|workers|] == valid;
    }
  }

  lemma NothingDealt(workers: seq<set<Check>>)
    requires forall k | 0 <= k < |workers| :: workers[k] == {}
    ensures IsDealt(workers, 0, 0) && IsPartition(workers, {})
    ensures Parallel({}) == {}
  {
  }

  /** Declarations take no part; every other check is held. */
  lemma ParallelIsHeld(workers: seq<set<Check>>, checks: set<Check>)
    requires IsPartition(workers, Parallel(checks))
    ensures forall k, c | 0 <= k < |workers| && c in workers[k] :: !c.kind.Decl?
    ensures forall c | c in checks && !c.kind.Decl? :: exists k :: 0 <= k < |workers| && c in workers[k]
  {
    forall k, c | 0 <= k < |workers| && c in workers[k]
      ensures !c.kind.Decl?
    {
      assert c in Parallel(checks);
    }
    forall c | c in checks && !c.kind.Decl?
      ensures exists k :: 0 <= k < |workers| && c in workers[k]
    {
      assert c in Parallel(checks);
    }
  }

  lemma DealtIsEven(workers: seq<set<Check>>, q: nat, r: nat)
    requires IsDealt(workers, q, r)
    ensures IsEven(workers)
  {
  }

  ghost function Merged(workers: seq<set<Check>>, valid: seq<bool>): set<Check>
    requires |valid| == |workers|
  {
    set k, c | 0 <= k < |workers| && valid[k] && c in workers[k] :: c
  }

  lemma MergeOneMore(workers: seq<set<Check>>, valid: seq<bool>, k: nat)
    requires k < |workers| == |valid|
    ensures Merged(workers[..k + 1], valid[..k + 1])
         == Merged(workers[..k], valid[..k]) + if valid[k] then workers[k] else {}
  {
    var a, b := Merged(workers[..k + 1], valid[..k + 1]), Merged(workers[..k], valid[..k]);
    forall c | c in b
      ensures c in a
    {
      var j :| 0 <= j < k && valid[..k][j] && c in workers[..k][j];
      assert valid[..k + 1][j] && c in workers[..k + 1][j];
    }
    if valid[k] {
      assert valid[..k + 1][k] && workers[..k + 1][k] == workers[k];
    }
    forall c | c in a
      ensures c in b + if valid[k] then workers[k] else {}
    {
      var j :| 0 <= j < k + 1 && valid[..k + 1][j] && c in workers[..k + 1][j];
      if j < k {
        assert valid[..k][j] && c in workers[..k][j];
      }
    }
  }

  /** Merging the workers restores exactly what was dealt to them if and only if every worker
      that failed had nothing to do. */
  lemma MergeRestoresIff(workers: seq<set<Check>>, valid: seq<bool>, checks: set<Check>)
    requires |valid| == |workers| && IsPartition(workers, checks)
    ensures Merged(workers, valid) == checks <==> forall k | 0 <= k < |workers| && !valid[k] :: workers[k] == {}
  {
    if k :| 0 <= k < |workers| && !valid[k] && workers[k] != {} {
      var c :| c in workers[k];
      assert c !in Merged(workers, valid);
    } else {
      forall c | c in checks
        ensures c in Merged(workers, valid)
      {
        var k :| 0 <= k < |workers| && c in workers[k];
      }
    }
  }
}
