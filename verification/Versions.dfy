/** Versions of packages: parsing, printing, ordering and the upgrade rule. */
module Versions {
  import opened Strings
  import opened Results

  const INT_MAX := 0x7fff_ffff

  datatype VersionType = Any | Equal | Exact | Branch

  /** What two versions have in common when operator== holds: the type is not looked at,
      and the numbers of a branch are not looked at either. */
  datatype VersionKey = Numbers(major: int, minor: int, patch: int) | BranchName(name: string)

  /** -1 stands for a number that is not given. */
  datatype Version = Version(major: int, minor: int, patch: int, branch: string, kind: VersionType)
  {
    predicate IsBranch() { branch != "" }

    function Key(): VersionKey {
      if IsBranch() then BranchName(branch) else Numbers(major, minor, patch)
    }

    /** operator== */
    predicate Same(rhs: Version) {
      if IsBranch() && rhs.IsBranch() then branch == rhs.branch
      else if IsBranch() || rhs.IsBranch() then false
      else major == rhs.major && minor == rhs.minor && patch == rhs.patch
    }

    /** operator< */
    predicate Less(rhs: Version) {
      if IsBranch() && rhs.IsBranch() then LexLess(branch, rhs.branch)
      else if IsBranch() then true
      else if rhs.IsBranch() then false
      else NumbersLess(major, minor, patch, rhs.major, rhs.minor, rhs.patch)
    }

    /** The request this may be answered with the exact version rhs. */
    predicate CanBe(rhs: Version) {
      || Same(rhs)
      || (major == -1 && minor == -1 && patch == -1)
      || (major == rhs.major && minor == -1 && patch == -1)
      || (major == rhs.major && minor == rhs.minor && patch == -1)
    }

    predicate IsValid() {
      if IsBranch() then IsBranchName(branch)
      else !(major == 0 && minor == 0 && patch == 0) && major >= -1 && minor >= -1 && patch >= -1
    }
  }

  /** A version with nothing given, as the default constructor makes it. */
  const ANY_VERSION := Version(-1, -1, -1, "", Any)

  predicate NumbersLess(a: int, b: int, c: int, x: int, y: int, z: int) {
    a < x || (a == x && (b < y || (b == y && c < z)))
  }

  predicate IsNameStart(c: char) { 'a' <= c <= 'z' || 'A' <= c <= 'Z' || c == '_' }

  predicate IsBranchName(s: string) {
    s != "" && IsNameStart(s[0]) && forall c | c in s :: IsNameStart(c) || IsDigit(c) || c == '-'
  }

  // ----- order -----

  /** operator< is a strict total order whose ties are exactly the equal versions. */
  lemma LessIsStrictTotalOrder(a: Version, b: Version, c: Version)
    ensures !a.Less(a)
    ensures a.Less(b) && b.Less(c) ==> a.Less(c)
    ensures a.Same(b) <==> !a.Less(b) && !b.Less(a)
    ensures !(a.Less(b) && b.Less(a))
    ensures a.Same(b) <==> a.Key() == b.Key()
  {
    LexTrichotomy(a.branch, a.branch);
    LexTrichotomy(a.branch, b.branch);
    if LexLess(a.branch, b.branch) && LexLess(b.branch, c.branch) {
      LexTransitive(a.branch, b.branch, c.branch);
    }
  }

  /** Which of two versions is the newer one: branches come before numbers, and the first number
      that differs decides. */
  lemma NewerIsGreater(a: Version, b: Version)
    ensures a.IsBranch() && !b.IsBranch() ==> a.Less(b)
    ensures !a.IsBranch() && !b.IsBranch() && a.major < b.major ==> a.Less(b)
    ensures !a.IsBranch() && !b.IsBranch() && a.major == b.major && a.minor < b.minor ==> a.Less(b)
    ensures !a.IsBranch() && !b.IsBranch() && a.major == b.major && a.minor == b.minor && a.patch < b.patch ==>
              a.Less(b)
    ensures a.IsBranch() && b.IsBranch() ==> (a.Less(b) <==> LexLess(a.branch, b.branch))
  {
  }

  // ----- parsing -----

  datatype ParseError = BadVersion | OutOfRange

  /** The digits of one number of a version; a missing number is -1. */
  function NumberAt(pieces: seq<string>, i: nat): int
    requires forall p | p in pieces :: AllDigits(p)
  {
    if i < |pieces| then
      assert AllDigits(pieces[i]);
      ParseNat(pieces[i])
    else -1
  }

  /** The string constructor. The three numeric patterns admit one to three non-empty runs of
      digits separated by dots; std::stoi refuses what does not fit an int. */
  function Parse(s: string): Result<Version, ParseError> {
    if s == "*" then Success(ANY_VERSION)
    else if s == "=" then Success(Version(-1, -1, -1, "", Equal))
    else
      var pieces := Split(s, '.');
      if |pieces| <= 3 && forall p | p in pieces :: AllDigits(p) then
        var v := Version(NumberAt(pieces, 0), NumberAt(pieces, 1), NumberAt(pieces, 2), "", Exact);
        if v.major > INT_MAX || v.minor > INT_MAX || v.patch > INT_MAX then Failure(OutOfRange)
        else if v.IsValid() then Success(v)
        else Failure(BadVersion)
      else if IsBranchName(s) then Success(Version(-1, -1, -1, s, Branch))
      else Failure(BadVersion)
  }

  /** The versions the string constructor can produce. */
  predicate IsParsed(v: Version) {
    match v.kind
    case Any => v == ANY_VERSION
    case Equal => v == Version(-1, -1, -1, "", Equal)
    case Branch => v.major == v.minor == v.patch == -1 && IsBranchName(v.branch)
    case Exact =>
      && v.branch == "" && v.IsValid()
      && 0 <= v.major <= INT_MAX && v.minor <= INT_MAX && v.patch <= INT_MAX
      && (v.minor == -1 ==> v.patch == -1)
  }

  // ----- printing -----

  /** The numbers that are given, the major one always. */
  function GivenNumbers(v: Version): seq<string> {
    [PrintInt(v.major)]
    + (if v.minor != -1 then [PrintInt(v.minor)] else [])
    + (if v.patch != -1 then [PrintInt(v.patch)] else [])
  }

  function AnyString(v: Version): string {
    if v.IsBranch() then v.branch
    else if v.kind == Equal then "="
    else if v.major == -1 && v.minor == -1 && v.patch == -1 then "*"
    else Join(GivenNumbers(v), '.')
  }

  /** The string is grown number by number, each with a dot behind it; the last dot is cut off. */
  method ToAnyVersion(v: Version) returns (s: string)
    ensures s == AnyString(v)
  {
    if v.branch != "" {
      return v.branch;
    }
    if v.kind == Equal {
      return "=";
    }
    if v.major == -1 && v.minor == -1 && v.patch == -1 {
      return "*";
    }
    s := "";
    s := s + PrintInt(v.major) + ".";
    if v.minor != -1 {
      s := s + PrintInt(v.minor) + ".";
    }
    if v.patch != -1 {
      s := s + PrintInt(v.patch) + ".";
    }
    s := s[..|s| - 1];
    var g := GivenNumbers(v);
    assert |g| > 1 ==> Join(g, '.') == g[0] + "." + Join(g[1..], '.');
    assert |g| > 2 ==> Join(g[1..], '.') == g[1] + "." + g[2];
  }

  /** Printing a parsed version and parsing the text again gives the very same version. */
  lemma PrintThenParse(v: Version)
    requires IsParsed(v)
    ensures Parse(AnyString(v)) == Success(v)
  {
    if v.kind == Exact {
      NumbersRoundTrip(v);
    } else if v.kind == Branch {
      assert v.branch[0] in v.branch;
      BranchIsNoNumber(v.branch);
    }
  }

  /** Every accepted text denotes a version whose printed form denotes it again. */
  lemma ParsePrintParse(s: string)
    requires Parse(s).Success?
    ensures IsParsed(Parse(s).value)
    ensures Parse(AnyString(Parse(s).value)) == Parse(s)
  {
    PrintThenParse(Parse(s).value);
  }

  lemma NumbersRoundTrip(v: Version)
    requires IsParsed(v) && v.kind == Exact
    ensures Parse(AnyString(v)) == Success(v)
  {
    var g, s := GivenNumbers(v), AnyString(v);
    GivenNumbersSplit(v);
    assert s[0] == g[0][0] && g[0][0] in g[0];
    ParsePrintNat(v.major);
    assert NumberAt(g, 0) == v.major;
    assert NumberAt(g, 1) == v.minor by {
      if v.minor != -1 { ParsePrintNat(v.minor); }
    }
    assert NumberAt(g, 2) == v.patch by {
      if v.patch != -1 { ParsePrintNat(v.patch); }
    }
  }

  lemma GivenNumbersSplit(v: Version)
    requires IsParsed(v) && v.kind == Exact
    ensures forall p | p in GivenNumbers(v) :: AllDigits(p)
    ensures Split(Join(GivenNumbers(v), '.'), '.') == GivenNumbers(v)
  {
    var g := GivenNumbers(v);
    forall p | p in g
      ensures AllDigits(p) && '.' !in p
    {
    }
    SplitJoin(g, '.');
  }

  lemma BranchIsNoNumber(s: string)
    requires IsBranchName(s)
    ensures s != "*" && s != "=" && !(forall p | p in Split(s, '.') :: AllDigits(p))
  {
    SplitWhole(s, '.');
    assert s[0] in s && !IsDigit(s[0]);
    assert s in Split(s, '.');
  }

  /** The printed text tells parsed versions apart; equal versions print alike, except that "=" and
      "*" are equal. */
  lemma PrintingIsInjective(a: Version, b: Version)
    requires IsParsed(a) && IsParsed(b)
    ensures AnyString(a) == AnyString(b) <==> a == b
    ensures a.Same(b) <==> AnyString(a) == AnyString(b) || {AnyString(a), AnyString(b)} == {"*", "="}
  {
    PrintThenParse(a);
    PrintThenParse(b);
    if a.Same(b) && a != b {
      assert {a.kind, b.kind} == {Any, Equal};
    }
  }
}
