/** Texts on both sides of the edges of what is accepted, and what is read from them. */
module OrdinaryTexts {
  import opened Results
  import opened Strings
  import opened Versions
  import Paths = ProjectPaths
  import opened PackageNames
  import opened Arguments

  // ----- numbers and versions -----

  /** Numbers are read with base ten. */
  lemma NumbersAreDecimal()
    ensures ParseNat("0") == 0 && ParseNat("9") == 9 && ParseNat("10") == 10 && ParseNat("207") == 207
    ensures PrintNat(10) == "10"
  {
    assert "10"[..1] == "1" && "207"[..2] == "20" && "20"[..1] == "2";
    assert "0"[..0] == "" && "9"[..0] == "" && "1"[..0] == "" && "2"[..0] == "";
    assert ParseNat("1") == 1 && ParseNat("2") == 2 && ParseNat("20") == 20;
    assert PrintNat(1) == "1";
  }

  /** The version that up to three pieces of digits denote. */
  lemma PiecesAreRead(s: string, g: seq<string>)
    requires s != "*" && s != "=" && Split(s, '.') == g && |g| <= 3 && forall p | p in g :: AllDigits(p)
    ensures var v := Version(NumberAt(g, 0), NumberAt(g, 1), NumberAt(g, 2), "", Exact);
            Parse(s) == if v.major > 2147483647 || v.minor > 2147483647 || v.patch > 2147483647 then Failure(OutOfRange)
                        else if v.major == v.minor == v.patch == 0 then Failure(BadVersion)
                        else Success(v)
  {
    hide Split, ParseNat;
  }

  lemma NoStar(digits: string, rest: string)
    requires AllDigits(digits)
    ensures digits + rest != "*" && digits + rest != "="
  {
    assert digits[0] in digits && (digits + rest)[0] == digits[0];
  }

  /** One to three numbers are a version exactly when all fit an int of 32 bits and the three are
      not all zero; a number that does not fit is refused as such. */
  lemma OneNumberIsRead(a: nat)
    ensures Parse(PrintNat(a)) == if a > 2147483647 then Failure(OutOfRange) else Success(Version(a, -1, -1, "", Exact))
  {
    hide Parse, Split, ParseNat, PrintNat;
    var s := PrintNat(a);
    ParsePrintNat(a);
    NoStar(s, "");
    assert s + "" == s;
    DigitsHaveNoDot(s);
    SplitWhole(s, '.');
    PiecesAreRead(s, [s]);
  }

  lemma DigitsHaveNoDot(s: string)
    requires AllDigits(s)
    ensures '.' !in s
  {
  }

  lemma TwoNumbersAreRead(a: nat, b: nat)
    ensures Parse(PrintNat(a) + "." + PrintNat(b))
         == if a > 2147483647 || b > 2147483647 then Failure(OutOfRange) else Success(Version(a, b, -1, "", Exact))
  {
    hide Parse, Split, ParseNat, PrintNat;
    var x, y := PrintNat(a), PrintNat(b);
    var s := x + ['.'] + y;
    ParsePrintNat(a);
    ParsePrintNat(b);
    NoStar(x, ['.'] + y);
    assert x + (['.'] + y) == s;
    DigitsHaveNoDot(x);
    DigitsHaveNoDot(y);
    SplitFirst(x, '.', y);
    SplitWhole(y, '.');
    PiecesAreRead(s, [x, y]);
  }

  lemma ThreeNumbersAreRead(a: nat, b: nat, c: nat)
    ensures Parse(PrintNat(a) + "." + PrintNat(b) + "." + PrintNat(c))
         == if a > 2147483647 || b > 2147483647 || c > 2147483647 then Failure(OutOfRange)
            else if a == b == c == 0 then Failure(BadVersion)
            else Success(Version(a, b, c, "", Exact))
  {
    hide Parse, Split, ParseNat, PrintNat;
    var x, y, z := PrintNat(a), PrintNat(b), PrintNat(c);
    var s := x + ['.'] + (y + ['.'] + z);
    ParsePrintNat(a);
    ParsePrintNat(b);
    ParsePrintNat(c);
    NoStar(x, ['.'] + (y + ['.'] + z));
    assert x + (['.'] + (y + ['.'] + z)) == s == x + "." + y + "." + z;
    DigitsHaveNoDot(x);
    DigitsHaveNoDot(y);
    DigitsHaveNoDot(z);
    SplitFirst(x, '.', y + ['.'] + z);
    SplitFirst(y, '.', z);
    SplitWhole(z, '.');
    PiecesAreRead(s, [x, y, z]);
  }

  /** A text that is neither numbers nor a branch is no version. */
  lemma OthersAreRefused(s: string)
    requires s != "*" && s != "=" && !IsBranchName(s)
    requires |Split(s, '.')| > 3 || exists p :: p in Split(s, '.') && !AllDigits(p)
    ensures Parse(s) == Failure(BadVersion)
  {
  }

  /** So four numbers are not, nor is an empty one. */
  lemma FourNumbersAreRefused(a: nat, b: nat, c: nat, d: nat)
    ensures Parse(PrintNat(a) + "." + PrintNat(b) + "." + PrintNat(c) + "." + PrintNat(d)) == Failure(BadVersion)
    ensures Parse(PrintNat(a) + ".") == Failure(BadVersion) && Parse("") == Failure(BadVersion)
  {
    hide Parse, Split, PrintNat;
    var x, y, z, w := PrintNat(a), PrintNat(b), PrintNat(c), PrintNat(d);
    var s := x + ['.'] + (y + ['.'] + (z + ['.'] + w));
    assert s == x + "." + y + "." + z + "." + w;
    DigitsHaveNoDot(x);
    DigitsHaveNoDot(y);
    DigitsHaveNoDot(z);
    SplitFirst(x, '.', y + ['.'] + (z + ['.'] + w));
    SplitFirst(y, '.', z + ['.'] + w);
    SplitFirst(z, '.', w);
    StartsWithDigit(x, ['.'] + (y + ['.'] + (z + ['.'] + w)));
    assert x + (['.'] + (y + ['.'] + (z + ['.'] + w))) == s;
    OthersAreRefused(s);
    SplitFirst(x, '.', "");
    SplitWhole("", '.');
    assert x + ['.'] + "" == x + "." == x + ['.'];
    assert Split(x + ".", '.') == [x] + Split("", '.') && "" in Split("", '.');
    assert "" in Split(x + ".", '.');
    StartsWithDigit(x, ".");
    OthersAreRefused(x + ".");
    assert "" in Split("", '.');
    OthersAreRefused("");
  }

  lemma StartsWithDigit(x: string, rest: string)
    requires AllDigits(x)
    ensures x + rest != "*" && x + rest != "=" && !IsBranchName(x + rest)
  {
    assert x[0] in x && (x + rest)[0] == x[0];
  }

  // ----- branches -----

  lemma BranchIsRead(s: string)
    ensures Parse(s) == Success(Version(-1, -1, -1, s, Branch)) <==> IsBranchName(s)
  {
    if IsBranchName(s) {
      BranchIsNoNumber(s);
    }
  }

  /** Which texts of one or two characters are branches: a letter or an underscore begins them, and
      digits and dashes may follow. */
  lemma BranchesAreRead(c: char, d: char)
    ensures Parse([c]) == Success(Version(-1, -1, -1, [c], Branch))
       <==> 'a' <= c <= 'z' || 'A' <= c <= 'Z' || c == '_'
    ensures Parse(['x', d]) == Success(Version(-1, -1, -1, ['x', d], Branch))
       <==> 'a' <= d <= 'z' || 'A' <= d <= 'Z' || d == '_' || '0' <= d <= '9' || d == '-'
  {
    hide Parse;
    BranchIsRead([c]);
    BranchIsRead(['x', d]);
    assert c in [c] && d in ['x', d];
  }

  // ----- paths -----

  /** Which texts are paths: up to 2048 letters, digits, dots and underscores. */
  lemma PathsAreRead(s: string)
    ensures Paths.Parse(s).Success?
       <==> |s| <= 2048 && forall c | c in s ::
              'a' <= c <= 'z' || 'A' <= c <= 'Z' || '0' <= c <= '9' || c == '.' || c == '_'
    ensures |s| > 2048 ==> Paths.Parse(s) == Failure(Paths.TooLongProjectPath)
    ensures Paths.Parse(s) == Failure(Paths.BadSymbol) ==> |s| <= 2048
  {
  }

  /** A path is read in lower case, element by element; an element may be empty. */
  lemma PathsAreLowered()
    ensures Paths.Parse("Org.ZLib") == Success(Paths.ProjectPath(["org", "zlib"]))
    ensures Paths.Parse("") == Success(Paths.ProjectPath([]))
    ensures Paths.Parse(".b") == Success(Paths.ProjectPath(["", "b"]))
  {
    hide Paths.Parse, Split, Paths.LowerAll;
    ReadAs("Org.ZLib", "org" + ['.'] + "zlib");
    SplitFirst("org", '.', "zlib");
    SplitWhole("zlib", '.');
    assert ["org"] + ["zlib"] == ["org", "zlib"];
    ReadAs(".b", "" + ['.'] + "b");
    SplitFirst("", '.', "b");
    SplitWhole("b", '.');
    assert [""] + ["b"] == ["", "b"];
    ReadAs("", "");
  }

  lemma ReadAs(s: string, low: string)
    requires |s| == |low| <= 2048 && forall k | 0 <= k < |s| :: Paths.IsPathSymbol(s[k])
    requires forall k | 0 <= k < |s| :: low[k] == if 'A' <= s[k] <= 'Z' then (s[k] as int + 32) as char else s[k]
    ensures Paths.Parse(s) == Success(Paths.ProjectPath(if s == "" then [] else Split(low, '.')))
  {
    hide Split;
    assert Paths.LowerAll(s) == low;
  }

  // ----- names of packages -----

  lemma OrdinaryTargetNames()
    ensures TargetName(NamedPackage(Paths.ProjectPath(["org", "zlib"]), ANY_VERSION)) == "org.zlib"
    ensures TargetName(NamedPackage(Paths.ProjectPath(["org", "zlib"]), Version(1, 2, -1, "", Exact))) == "org.zlib-1.2"
    ensures TargetName(NamedPackage(Paths.ProjectPath(["a"]), Version(-1, -1, -1, "master", Branch))) == "a-master"
    ensures TargetName(NamedPackage(Paths.ProjectPath(["a"]), Version(-1, -1, -1, "", Equal))) == "a-="
  {
    var path, a := Paths.ProjectPath(["org", "zlib"]), Paths.ProjectPath(["a"]);
    assert path.elements[1..] == ["zlib"];
    assert Paths.ToString(path) == "org" + ['.'] + Join(["zlib"], '.') == "org.zlib" && Paths.ToString(a) == "a";
    var v := Version(1, 2, -1, "", Exact);
    assert PrintInt(1) == PrintNat(1) == "1" && PrintInt(2) == PrintNat(2) == "2";
    assert GivenNumbers(v) == ["1", "2"] && ["1", "2"][1..] == ["2"];
    assert AnyString(v) == "1" + ['.'] + Join(["2"], '.') == "1.2";
    assert AnyString(ANY_VERSION) == "*";
    NamedBy(NamedPackage(path, v), "org.zlib", "1.2");
    assert "org.zlib" + "-" + "1.2" == "org.zlib-1.2";
    NamedBy(NamedPackage(a, Version(-1, -1, -1, "master", Branch)), "a", "master");
    assert "a" + "-" + "master" == "a-master";
    NamedBy(NamedPackage(a, Version(-1, -1, -1, "", Equal)), "a", "=");
    assert "a" + "-" + "=" == "a-=";
  }

  lemma NamedBy(p: NamedPackage, path: string, version: string)
    requires Paths.ToString(p.path) == path && AnyString(p.version) == version && version != "*"
    ensures TargetName(p) == path + "-" + version
  {
  }

  // ----- arguments -----

  /** Exactly six characters are trimmed. */
  lemma BlanksAreTrimmed(c: char)
    ensures Added([c]) == [] <==> c as int in {9, 10, 11, 12, 13, 32}
  {
    var s := [c];
    assert s[..|s| - 1] == [] && s[1..] == [];
    if IsSpace(c) {
      assert TrimRight(s) == TrimRight([]) == [];
    } else {
      assert TrimRight([c]) == [c] && TrimLeft([c]) == [c];
    }
  }
}
