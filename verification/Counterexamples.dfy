/** Inputs at which texts, orders, runs and merges fall short: the cases that the conditions of the
    theorems exclude do occur. */
module Counterexamples {
  import opened Results
  import opened Strings
  import opened LikePattern
  import Blocks = StringBlocks
  import opened Arguments
  import opened Paths = ProjectPaths
  import opened PathOrder
  import opened Versions
  import opened PackageNames
  import Retry = ResolverRetry
  import Parallel = ParallelChecks

  const BRACKETED_A := Blocks.Block(Blocks.Square, Blocks.Plain('a', Blocks.End), Blocks.End)

  /** An argument that is itself in brackets loses them. */
  lemma BracketsAreLost()
    ensures Blocks.Print(BRACKETED_A) == "[a]"
    ensures ArgumentsFrom("[[a]]", 0, 0) == ["a"]
  {
    hide ArgumentsFrom;
    var arg := Argument("", Blocks.End, Blocked(Blocks.Square, BRACKETED_A), "");
    BracketedAPrints();
    assert arg.Written() == "[[a]]" && Joined([arg]) == "[[a]]";
    assert arg.IsWellNested();
    ParsingUndoesJoining([arg]);
    assert [arg][1..] == [];
    assert Stripped([arg]) == [Strip("[a]")] + Stripped([]);
    StripOnce();
  }

  lemma BracketedAPrints()
    ensures Blocks.Print(BRACKETED_A) == "[a]"
  {
    assert Blocks.Print(Blocks.Plain('a', Blocks.End)) == "a";
  }

  lemma StripOnce()
    ensures Strip("[a]") == "a"
  {
    var s := "[a]";
    assert s[1..|s| - 1] == "a";
  }

  const DASHED := NamedPackage(ProjectPath(["a"]), Version(-1, -1, -1, "x-y", Branch))

  lemma DashedIsRead()
    ensures ReadParts("a", "x-y") == Success(DASHED)
    ensures IsRead(DASHED) && '-' in DASHED.version.branch
  {
    assert LowerAll("a") == "a";
    SplitWhole("a", '.');
    assert Paths.Parse("a") == Success(DASHED.path);
    SplitWhole("x-y", '.');
    assert "x-y"[1] == '-' && '-' in "x-y" && !AllDigits("x-y");
  }

  /** The package of path a on branch x-y is read from text, and its name cannot be. */
  lemma DashedBranchIsNotReadBack()
    ensures ReadParts("a", "x-y") == Success(DASHED)
    ensures ExtractFromString("a-x-y").Failure? && ExtractFromStringAny(TargetName(DASHED)).Failure?
  {
    hide IsRead, ReadParts, ExtractFromString, ExtractFromStringAny, TargetName;
    DashedIsRead();
    assert ToString(DASHED.path) + "-" + AnyString(DASHED.version) == "a-x-y";
    ExtractJoined(DASHED);
    ExtractTargetName(DASHED);
  }

  /** Among com.a, com.b and loc.a the first two are in order, and both tie with the third. */
  lemma TwoNamespacesCannotBeSorted()
    ensures var s := {ProjectPath(["com", "a"]), ProjectPath(["com", "b"]), ProjectPath(["loc", "a"])};
            !CanSort(s)
    ensures Less(ProjectPath(["com", "a"]), ProjectPath(["com", "b"]))
  {
    var p, q, r := ProjectPath(["com", "a"]), ProjectPath(["com", "b"]), ProjectPath(["loc", "a"]);
    assert "com"[0] != "loc"[0] && "com"[0] != "org"[0] && "com"[0] != "pvt"[0];
    assert "loc"[0] != "org"[0] && "loc"[0] != "pvt"[0] && "a"[0] != "b"[0];
    assert p.elements[1] != q.elements[1];
    assert Mixes(p, q, r);
    CanSortIff({p, q, r});
    assert p.elements[1..] == ["a"] && q.elements[1..] == ["b"];
  }

  /** A root project with an underscore takes in a stranger as its child. */
  lemma StrangerBecomesChild()
    ensures Paths.Parse("a_b").Success? && Paths.Parse("axb.c").Success?
    ensures Like(ChildPattern("a_b"), "axb.c") && !IsRootOf(Paths.Parse("a_b").value, Paths.Parse("axb.c").value)
  {
    ChildPatternFits("a_b", "axb.c");
    assert "a_b"[1..] == "_b" && "_b"[1..] == "b" && "b"[1..] == "";
    assert "axb.c"[1..] == "xb.c" && "xb.c"[1..] == "b.c" && "b.c"[1..] == ".c";
    assert Fits("b", "b.c") && Fits("_b", "xb.c") && Fits("a_b", "axb.c");
    RootOfIffBelow("a_b", "axb.c");
    assert LowerAll("a_b")[1] == '_' && LowerAll("axb.c")[1] == 'x';
  }

  /** With an action that always raises a hash exception, resolve returns and nothing was done. */
  lemma ReturnCanMeanFailure()
    ensures var w := Retry.World(true, true, 1, (r, i) => true, (n, q) => Retry.RaisedLocalDbHash);
            && Retry.Script(w).outcome.Returned? && !Retry.EndsCompleted(Retry.Script(w).events)
  {
    var w := Retry.World(true, true, 1, (r, i) => true, (n, q) => Retry.RaisedLocalDbHash);
    assert Retry.RemoteEvents(w, 0, 0) == [Retry.QueriedRemote(0, true)] && Retry.RemoteFound(w, 0, 0) == 0;
    assert Retry.Script(w) == Retry.RemoteAttempt(w, 0, 0, 0, 0);
  }

  /** The only worker fails, and its check is lost. */
  lemma CheckOfFailedWorkerIsLost(c: Parallel.Check)
    ensures Parallel.IsPartition([{c}], {c}) && Parallel.Merged([{c}], [false]) == {}
  {
    assert [{c}][0] == {c};
  }
}
