/** The names of packages, and reading packages back from their names. */
module PackageNames {
  import opened Results
  import opened Strings
  import Paths = ProjectPaths
  import opened Versions

  datatype NamedPackage = NamedPackage(path: Paths.ProjectPath, version: Version)

  datatype NameError = NotAPackageName | BadPath(path: Paths.PathError) | BadVersionText(version: ParseError)

  /** target_name: the version is left out when it may be any. */
  function TargetName(p: NamedPackage): string {
    var v := AnyString(p.version);
    Paths.ToString(p.path) + if v == "*" then "" else "-" + v
  }

  function ReadParts(path: string, version: string): Result<NamedPackage, NameError> {
    match Paths.Parse(path)
    case Failure(e) => Failure(BadPath(e))
    case Success(p) =>
      match Parse(version)
      case Failure(e) => Failure(BadVersionText(e))
      case Success(v) => Success(NamedPackage(p, v))
  }

  /** The last dash separates the path from the version. */
  function ExtractFromString(target: string): Result<NamedPackage, NameError> {
    var pos := LastIndex(target, '-');
    if pos == -1 then Failure(NotAPackageName) else ReadParts(target[..pos], target[pos + 1..])
  }

  /** Without a dash the whole text is the path and the version may be any. */
  function ExtractFromStringAny(target: string): Result<NamedPackage, NameError> {
    var pos := LastIndex(target, '-');
    if pos == -1 then
      match Paths.Parse(target)
      case Failure(e) => Failure(BadPath(e))
      case Success(p) => Success(NamedPackage(p, ANY_VERSION))
    else ReadParts(target[..pos], target[pos + 1..])
  }

  /** A package whose path and version were read from text. */
  ghost predicate IsRead(p: NamedPackage) {
    IsParsed(p.version) && exists s :: Paths.Parse(s) == Success(p.path)
  }

  lemma ReadPath(p: NamedPackage)
    requires IsRead(p)
    ensures Paths.Parse(Paths.ToString(p.path)) == Success(p.path) && '-' !in Paths.ToString(p.path)
  {
    var s :| Paths.Parse(s) == Success(p.path);
    Paths.PrintParsed(s);
  }

  lemma {:induction false} LastIndexIs(s: string, c: char, i: nat)
    requires i < |s| && s[i] == c && forall k | i < k < |s| :: s[k] != c
    ensures LastIndex(s, c) == i
  {
  }

  /** Only the names of branches have dashes. */
  lemma DashesAreInBranches(v: Version)
    requires IsParsed(v)
    ensures '-' in AnyString(v) <==> '-' in v.branch
  {
    if v.kind == Exact {
      GivenNumbersSplit(v);
      JoinChars(GivenNumbers(v), '.');
      forall c | c in AnyString(v)
        ensures c != '-'
      {
        if c != '.' {
          var p :| p in GivenNumbers(v) && c in p;
          assert AllDigits(p);
        }
      }
    }
  }

  lemma SplitAtDash(path: string, version: string)
    requires '-' !in version
    ensures ExtractFromString(path + "-" + version) == ReadParts(path, version)
    ensures ExtractFromStringAny(path + "-" + version) == ReadParts(path, version)
  {
    var target := path + "-" + version;
    forall k | |path| < k < |target|
      ensures target[k] != '-'
    {
      assert target[k] == version[k - |path| - 1];
    }
    LastIndexIs(target, '-', |path|);
    assert target[..|path|] == path && target[|path| + 1..] == version;
  }

  /** With a dash in the version, the piece before the last dash is no path. */
  lemma SplitInsideVersion(path: string, version: string)
    requires '-' in version
    ensures ExtractFromString(path + "-" + version).Failure? && ExtractFromStringAny(path + "-" + version).Failure?
  {
    var target := path + "-" + version;
    var k :| 0 <= k < |version| && version[k] == '-';
    assert target[|path| + 1 + k] == '-';
    var pos := LastIndex(target, '-');
    assert target[..pos][|path|] == '-' && '-' in target[..pos];
    assert Paths.Parse(target[..pos]).Failure?;
  }

  /** A text without a dash has no version: it names no package where one is asked for, otherwise
      the path of a package at any version. */
  lemma UndashedNames(target: string)
    requires '-' !in target
    ensures ExtractFromString(target) == Failure(NotAPackageName)
    ensures ExtractFromStringAny(target)
         == if Paths.Parse(target).Failure? then Failure(BadPath(Paths.Parse(target).error))
            else Success(NamedPackage(Paths.Parse(target).value, ANY_VERSION))
  {
  }

  /** Reading a path and a version joined by a dash gives the package back exactly when the
      branch has no dash; otherwise it fails, and never gives another package. */
  lemma ExtractJoined(p: NamedPackage)
    requires IsRead(p)
    ensures ExtractFromString(Paths.ToString(p.path) + "-" + AnyString(p.version)) == Success(p)
       <==> '-' !in p.version.branch
    ensures '-' in p.version.branch ==> ExtractFromString(Paths.ToString(p.path) + "-" + AnyString(p.version)).Failure?
  {
    ReadPath(p);
    PrintThenParse(p.version);
    DashesAreInBranches(p.version);
    if '-' in p.version.branch {
      SplitInsideVersion(Paths.ToString(p.path), AnyString(p.version));
    } else {
      SplitAtDash(Paths.ToString(p.path), AnyString(p.version));
    }
  }

  /** Likewise for target names, which may have no version. */
  lemma ExtractTargetName(p: NamedPackage)
    requires IsRead(p)
    ensures ExtractFromStringAny(TargetName(p)) == Success(p) <==> '-' !in p.version.branch
    ensures '-' in p.version.branch ==> ExtractFromStringAny(TargetName(p)).Failure?
  {
    var path, version := Paths.ToString(p.path), AnyString(p.version);
    ReadPath(p);
    PrintThenParse(p.version);
    DashesAreInBranches(p.version);
    if version == "*" {
      assert p.version == ANY_VERSION && TargetName(p) == path;
    } else {
      assert TargetName(p) == path + "-" + version;
      if '-' in p.version.branch {
        SplitInsideVersion(path, version);
      } else {
        SplitAtDash(path, version);
      }
    }
  }

  /** The path ends at the first dash of a target name, and only "*" leaves no dash. */
  lemma TargetNameParts(p: NamedPackage)
    requires IsRead(p)
    ensures Split(TargetName(p), '-')[0] == Paths.ToString(p.path)
    ensures |Split(TargetName(p), '-')| == 1 <==> AnyString(p.version) == "*"
    ensures AnyString(p.version) != "*" ==> TargetName(p) == Paths.ToString(p.path) + "-" + AnyString(p.version)
  {
    var path, version := Paths.ToString(p.path), AnyString(p.version);
    ReadPath(p);
    if version == "*" {
      assert TargetName(p) == path;
      SplitWhole(path, '-');
    } else {
      assert TargetName(p) == path + ['-'] + version;
      SplitFirst(path, '-', version);
    }
  }

  /** Target names tell all packages apart that were read from text, whatever their branches:
      only reading them back fails on a dash. */
  lemma TargetNamesDiffer(p: NamedPackage, q: NamedPackage)
    requires IsRead(p) && IsRead(q) && TargetName(p) == TargetName(q)
    ensures p == q
  {
    TargetNameParts(p);
    TargetNameParts(q);
    ReadPath(p);
    ReadPath(q);
    var path := Paths.ToString(p.path);
    if AnyString(p.version) != "*" {
      assert TargetName(p)[|path| + 1..] == AnyString(p.version);
      assert TargetName(q)[|path| + 1..] == AnyString(q.version);
    }
    PrintingIsInjective(p.version, q.version);
  }
}
