/** Project paths: parsing, printing, and the relations between paths. */
module ProjectPaths {
  import opened Results
  import opened Strings
  import opened LikePattern

  datatype ProjectPath = ProjectPath(elements: seq<string>)
  {
    /** operator/ for paths */
    function Append(p: ProjectPath): ProjectPath { ProjectPath(elements + p.elements) }
  }

  datatype PathError = TooLongProjectPath | BadSymbol

  const MAX_LENGTH := 2048

  predicate IsPathSymbol(c: char) {
    'a' <= c <= 'z' || 'A' <= c <= 'Z' || IsDigit(c) || c == '.' || c == '_'
  }

  function LowerAll(s: string): (r: string)
    ensures |r| == |s| && forall k | 0 <= k < |s| :: r[k] == Lower(s[k])
  {
    if s == "" then "" else [Lower(s[0])] + LowerAll(s[1..])
  }

  /** The pieces between the dots, in lower case; the empty text has none. */
  function Parse(s: string): Result<ProjectPath, PathError> {
    if |s| > MAX_LENGTH then Failure(TooLongProjectPath)
    else if exists c | c in s :: !IsPathSymbol(c) then Failure(BadSymbol)
    else Success(ProjectPath(if s == "" then [] else Split(LowerAll(s), '.')))
  }

  function ToString(p: ProjectPath): string {
    Join(p.elements, '.')
  }

  // ----- parsing and printing, step by step -----

  /** The constructor: letters are lowered in place, and each dot ends an element. */
  method ParseProjectPath(given: string) returns (r: Result<ProjectPath, PathError>)
    ensures r == Parse(given)
  {
    hide Split, Parse, LowerAll, Lower, IsPathSymbol;
    ghost var low := LowerAll(given);
    if |given| > MAX_LENGTH {
      ParseOutcome(given, 0);
      return Failure(TooLongProjectPath);
    }
    var s := given;
    var elements: seq<string> := [];
    var prev, i := 0, 0;
    assert low[0..] == low && elements + Split(low, '.') == Split(low, '.');
    while i < |s|
      invariant 0 <= prev <= i <= |s| == |given|
      invariant forall k | 0 <= k < i :: s[k] == low[k] && IsPathSymbol(given[k])
      invariant forall k | i <= k < |s| :: s[k] == given[k]
      invariant forall k | prev <= k < i :: low[k] != '.'
      invariant elements + Split(low[prev..], '.') == Split(low, '.')
    {
      var c := s[i];
      if !IsPathSymbol(c) {
        ParseOutcome(given, i);
        return Failure(BadSymbol);
      }
      s := s[i := Lower(c)];
      if s[i] == '.' {
        PieceEnds(low, prev, i);
        assert s[prev..i] == low[prev..i];
        AppendPiece(elements, low[prev..i], Split(low[i + 1..], '.'));
        elements := elements + [s[prev..i]];
        prev := i + 1;
      }
      i := i + 1;
    }
    ParseOutcome(given, 0);
    if s != "" {
      LastPiece(low, prev);
      assert s[prev..] == low[prev..];
      elements := elements + [s[prev..]];
    }
    return Success(ProjectPath(elements));
  }

  /** What the outcome is, by the first offence found. */
  lemma ParseOutcome(s: string, i: nat)
    ensures |s| > MAX_LENGTH ==> Parse(s) == Failure(TooLongProjectPath)
    ensures |s| <= MAX_LENGTH && i < |s| && !IsPathSymbol(s[i]) ==> Parse(s) == Failure(BadSymbol)
    ensures |s| <= MAX_LENGTH && (forall k | 0 <= k < |s| :: IsPathSymbol(s[k])) ==>
              Parse(s) == Success(ProjectPath(if s == "" then [] else Split(LowerAll(s), '.')))
  {
    hide Split, LowerAll;
  }

  lemma PieceEnds(low: string, prev: nat, i: nat)
    requires prev <= i < |low| && low[i] == '.' && forall k | prev <= k < i :: low[k] != '.'
    ensures Split(low[prev..], '.') == [low[prev..i]] + Split(low[i + 1..], '.')
  {
    SplitFirst(low[prev..i], '.', low[i + 1..]);
    assert low[prev..] == low[prev..i] + ['.'] + low[i + 1..];
  }

  lemma LastPiece(low: string, prev: nat)
    requires prev <= |low| && forall k | prev <= k < |low| :: low[k] != '.'
    ensures Split(low[prev..], '.') == [low[prev..]]
  {
    SplitWhole(low[prev..], '.');
  }

  lemma AppendPiece(a: seq<string>, piece: string, b: seq<string>)
    ensures a + [piece] + b == a + ([piece] + b)
  {
  }

  method PrintProjectPath(p: ProjectPath) returns (s: string)
    ensures s == ToString(p)
  {
    s := "";
    if p.elements == [] {
      return;
    }
    for k := 0 to |p.elements|
      invariant k == 0 ==> s == ""
      invariant k > 0 ==> s == Join(p.elements[..k], '.') + "."
    {
      var e := p.elements[k];
      assert p.elements[..k + 1] == p.elements[..k] + [e];
      JoinLast(p.elements[..k], e);
      s := s + e + ".";
    }
    assert p.elements[..|p.elements|] == p.elements;
    s := s[..|s| - 1];
  }

  lemma {:induction false} JoinLast(parts: seq<string>, e: string)
    ensures Join(parts + [e], '.') == if parts == [] then e else Join(parts, '.') + "." + e
  {
    if parts != [] {
      JoinLast(parts[1..], e);
      assert (parts + [e])[1..] == parts[1..] + [e];
    }
  }

  // ----- round trip -----

  /** A path prints as the text it was read from in lower case, without dashes, and reading that
      text gives the path again. */
  lemma PrintParsed(s: string)
    requires Parse(s).Success?
    ensures ToString(Parse(s).value) == LowerAll(s) && '-' !in LowerAll(s)
    ensures Parse(LowerAll(s)) == Parse(s)
  {
    JoinSplit(LowerAll(s), '.');
    var low := LowerAll(s);
    forall k | 0 <= k < |low|
      ensures IsPathSymbol(low[k]) && low[k] != '-' && Lower(low[k]) == low[k]
    {
      assert s[k] in s;
    }
    assert LowerAll(low) == low;
  }

  // ----- one path below another -----

  predicate IsRootOf(p: ProjectPath, q: ProjectPath) {
    |p.elements| < |q.elements| && forall i | 0 <= i < |p.elements| :: p.elements[i] == q.elements[i]
  }

  /** is_root_of */
  method CheckRootOf(p: ProjectPath, q: ProjectPath) returns (r: bool)
    ensures r <==> IsRootOf(p, q)
  {
    if |p.elements| >= |q.elements| {
      return false;
    }
    for i := 0 to |p.elements|
      invariant forall k | 0 <= k < i :: p.elements[k] == q.elements[k]
    {
      if p.elements[i] != q.elements[i] {
        return false;
      }
    }
    return true;
  }

  /** back(root): what follows the root; the search for a difference finds none. */
  method Back(p: ProjectPath, root: ProjectPath) returns (r: ProjectPath)
    ensures IsRootOf(root, p) ==> p == root.Append(r) && r.elements != []
    ensures !IsRootOf(root, p) ==> r.elements == []
  {
    r := ProjectPath([]);
    var isRoot := CheckRootOf(root, p);
    if !isRoot {
      return;
    }
    for i := 0 to |root.elements| {
      if p.elements[i] != root.elements[i] {
        assert false;
      }
    }
    if r.elements == [] {
      r := ProjectPath(p.elements[|p.elements| - (|p.elements| - |root.elements|)..]);
    }
  }

  lemma RootOfIffAppended(p: ProjectPath, q: ProjectPath)
    ensures IsRootOf(p, q) <==> exists tail: ProjectPath :: tail.elements != [] && q == p.Append(tail)
  {
    if IsRootOf(p, q) {
      var tail := ProjectPath(q.elements[|p.elements|..]);
      assert q == p.Append(tail);
    }
  }

  lemma {:induction false} SplitBoth(s: string, sep: char, t: string)
    ensures Split(s + [sep] + t, sep) == Split(s, sep) + Split(t, sep)
  {
    var whole := s + [sep] + t;
    if s == "" {
      assert whole[1..] == t;
    } else {
      assert whole[1..] == s[1..] + [sep] + t;
      SplitBoth(s[1..], sep, t);
    }
  }

  /** On printed paths, being a root is being a prefix that a dot follows. */
  lemma RootOfIffBelow(p: string, q: string)
    requires p != "" && Parse(p).Success? && Parse(q).Success?
    ensures IsRootOf(Parse(p).value, Parse(q).value) <==> IsBelow(LowerAll(p), LowerAll(q))
  {
    hide Parse, LowerAll;
    var a, b := LowerAll(p), LowerAll(q);
    var x, y := Split(a, '.'), Split(b, '.');
    ParsedElements(p);
    ParsedElements(q);
    if IsBelow(a, b) {
      BelowHasRoot(a, b);
    }
    if IsRootOf(Parse(p).value, Parse(q).value) {
      RootIsPrefix(x, y);
      JoinSplit(a, '.');
      JoinSplit(b, '.');
    }
  }

  lemma ParsedElements(s: string)
    requires Parse(s).Success?
    ensures Parse(s).value.elements == if s == "" then [] else Split(LowerAll(s), '.')
    ensures |LowerAll(s)| == |s|
  {
  }

  lemma BelowHasRoot(a: string, b: string)
    requires IsBelow(a, b)
    ensures IsRootOf(ProjectPath(Split(a, '.')), ProjectPath(Split(b, '.')))
  {
    var tail := b[|a| + 1..];
    assert b == a + "." + tail;
    SplitBoth(a, '.', tail);
  }

  lemma RootIsPrefix(x: seq<string>, y: seq<string>)
    requires x != [] && IsRootOf(ProjectPath(x), ProjectPath(y))
    ensures IsBelow(Join(x, '.'), Join(y, '.'))
  {
    assert y == x + y[|x|..];
    JoinBoth(x, y[|x|..]);
  }

  lemma {:induction false} JoinBoth(x: seq<string>, y: seq<string>)
    requires x != [] && y != []
    ensures Join(x + y, '.') == Join(x, '.') + "." + Join(y, '.')
  {
    if |x| == 1 {
      assert (x + y)[1..] == y;
    } else {
      JoinBoth(x[1..], y);
      assert (x + y)[1..] == x[1..] + y;
    }
  }

  /** The select for a root project's children finds the projects it is the root of, whatever the
      table holds, exactly when the root's path has no underscore or is too long to have any. */
  lemma ChildrenHaveRootIff(root: string)
    requires root != "" && Parse(root).Success? && LowerAll(root) == root
    ensures (forall path | Parse(path).Success? && LowerAll(path) == path ::
               Like(ChildPattern(root), path) <==> IsRootOf(Parse(root).value, Parse(path).value))
       <==> '_' !in root || |root| == MAX_LENGTH
  {
    StoredIsPath(root);
    ChildrenAreBelowIffNoUnderscore(root);
    if '_' in root {
      var i :| 0 <= i < |root| && root[i] == '_';
      if |root| < MAX_LENGTH {
        StrangerIsSelected(root, i);
      }
    }
    if '_' !in root || |root| == MAX_LENGTH {
      forall path | Parse(path).Success? && LowerAll(path) == path
        ensures Like(ChildPattern(root), path) <==> IsRootOf(Parse(root).value, Parse(path).value)
      {
        StoredIsPath(path);
        RootOfIffBelow(root, path);
        ChildPatternFits(root, path);
        if Fits(root, path) {
          FitsIsLonger(root, path);
        }
      }
    }
  }

  lemma StrangerIsSelected(root: string, i: nat)
    requires Parse(root).Success? && IsPath(root) && LowerAll(root) == root && i < |root| < MAX_LENGTH && root[i] == '_'
    ensures exists path :: Parse(path).Success? && LowerAll(path) == path
              && Like(ChildPattern(root), path) && !IsRootOf(Parse(root).value, Parse(path).value)
  {
    var path := root[i := 'a'] + ".";
    UnderscoreFitsStranger(root, i);
    ChildPatternFits(root, path);
    forall k | 0 <= k < |path|
      ensures IsPathSymbol(path[k]) && Lower(path[k]) == path[k]
    {
      assert path[k] in path && IsPathChar(path[k]);
    }
    assert LowerAll(path) == path;
    RootOfIffBelow(root, path);
  }

  lemma {:induction false} FitsIsLonger(root: string, path: string)
    requires Fits(root, path)
    ensures |path| > |root|
  {
    if root != "" {
      FitsIsLonger(root[1..], path[1..]);
    }
  }

  lemma StoredIsPath(s: string)
    requires Parse(s).Success? && LowerAll(s) == s
    ensures IsPath(s)
  {
    forall c | c in s
      ensures IsPathChar(c)
    {
      var k :| 0 <= k < |s| && s[k] == c;
      assert Lower(s[k]) == s[k] && IsPathSymbol(c);
    }
  }
}
