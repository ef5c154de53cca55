/** Splitting the arguments of an autoconf macro. */
module Arguments {
  import opened StringBlocks

  predicate IsSpace(c: char) { c == ' ' || 9 <= c as int <= 13 }

  predicate IsBlank(s: string) { forall k | 0 <= k < |s| :: IsSpace(s[k]) }

  function TrimLeft(s: string): string {
    if s != "" && IsSpace(s[0]) then TrimLeft(s[1..]) else s
  }

  function TrimRight(s: string): string {
    if s != "" && IsSpace(s[|s| - 1]) then TrimRight(s[..|s| - 1]) else s
  }

  function Trim(s: string): string { TrimLeft(TrimRight(s)) }

  predicate IsBracketed(s: string) {
    s != "" && s[0] == '[' && s[|s| - 1] == ']'
  }

  /** Brackets around the whole text are taken off, however many there are. */
  function Strip(s: string): string {
    if IsBracketed(s) then Strip(s[1..|s| - 1]) else s
  }

  /** What adding a piece appends: nothing if it is blank. */
  function Added(piece: string): seq<string> {
    var s := Trim(piece);
    if s == "" then [] else [Strip(s)]
  }

  /** The arguments from position i on, when the current one begins at start. */
  function ArgumentsFrom(f: string, start: nat, i: nat): seq<string>
    requires start <= i <= |f|
    decreases |f| - i
  {
    if i == |f| then Added(f[start..i])
    else if f[i] == '\"' then ArgumentsFrom(f, start, BlockEnd(f, i + 1))
    else if f[i] == ',' then Added(f[start..i]) + ArgumentsFrom(f, i + 1, i + 1)
    else if f[i] == '(' || f[i] == '[' then
      var e := BlockEnd(f, i + 1);
      Added(f[start..e]) + ArgumentsFrom(f, e, e)
    else ArgumentsFrom(f, start, i + 1)
  }

  method AddTo(s: seq<string>, piece: string) returns (r: seq<string>)
    ensures r == s + Added(piece)
  {
    var str := Trim(piece);
    if str == "" {
      return s;
    }
    while str != "" && str[0] == '[' && str[|str| - 1] == ']'
      invariant Strip(str) == Strip(Trim(piece))
      decreases |str|
    {
      str := str[1..|str| - 1];
    }
    r := s + [str];
  }

  method ParseArguments(f: string) returns (s: seq<string>)
    ensures s == ArgumentsFrom(f, 0, 0)
  {
    hide Added, BlockEnd;
    var start, i := 0, 0;
    s := [];
    while i < |f|
      invariant 0 <= start <= i <= |f|
      invariant s + ArgumentsFrom(f, start, i) == ArgumentsFrom(f, 0, 0)
    {
      var c := f[i];
      if c == '\"' {
        var end := GetEndOfStringBlock(f, i + 1);
        i := end - 1;
      } else if c == ',' {
        AppendAssociates(s, Added(f[start..i]), ArgumentsFrom(f, i + 1, i + 1));
        s := AddTo(s, f[start..i]);
        start := i + 1;
      } else if c == '(' || c == '[' {
        var end := GetEndOfStringBlock(f, i + 1);
        AppendAssociates(s, Added(f[start..end]), ArgumentsFrom(f, end, end));
        i := end - 1;
        s := AddTo(s, f[start..i + 1]);
        start := i + 1;
      }
      i := i + 1;
    }
    s := AddTo(s, f[start..i]);
  }

  lemma AppendAssociates(a: seq<string>, b: seq<string>, c: seq<string>)
    ensures a + b + c == a + (b + c)
  {
  }

  // ----- joined arguments -----

  /** How an argument ends: with a block in parentheses or brackets, or without one. */
  datatype Ending = NoBlock | Blocked(kind: Kind, text: Text)
  {
    function Written(): string {
      if NoBlock? then "" else [Open(kind)] + Print(text) + [Close(kind)]
    }
  }

  /** Outside of blocks: no commas and no openers but those of quoted blocks. */
  predicate IsWord(t: Text) {
    match t
    case End => true
    case Plain(c, rest) => c != ',' && c != '(' && c != '[' && c != '\"' && IsWord(rest)
    case EscapedQuote(_) => false
    case Block(k, inner, rest) => k == Quote && FitsInside(inner, Quote, false) && IsWord(rest)
  }

  /** An argument with blanks around it: a word, a block, a word with a block behind it, or nothing. */
  datatype Argument = Argument(before: string, word: Text, ending: Ending, after: string)
  {
    predicate IsWellNested() {
      && IsBlank(before) && IsBlank(after) && IsWord(word)
      && (ending.Blocked? ==> ending.kind != Quote && FitsInside(ending.text, ending.kind, false))
      && (Written() != "" ==> !IsSpace(Written()[0]) && !IsSpace(Written()[|Written()| - 1]))
    }

    function Written(): string { Print(word) + ending.Written() }

    /** What the argument says: brackets around all of it only quote it. */
    function Content(): string {
      if Print(word) == "" && ending.Blocked? && ending.kind == Square then Print(ending.text) else Written()
    }
  }

  function Joined(args: seq<Argument>): string {
    if args == [] then ""
    else args[0].before + args[0].Written() + args[0].after + (if |args| == 1 then "" else "," + Joined(args[1..]))
  }

  /** Nothing becomes of an argument that is not there. */
  function Stripped(args: seq<Argument>): seq<string> {
    if args == [] then []
    else (if args[0].Written() == "" then [] else [Strip(args[0].Content())]) + Stripped(args[1..])
  }

  function Contents(args: seq<Argument>): seq<string> {
    if args == [] then []
    else (if args[0].Written() == "" then [] else [args[0].Content()]) + Contents(args[1..])
  }

  lemma {:induction false} TrimBlank(s: string)
    requires IsBlank(s)
    ensures Added(s) == []
  {
    if s != "" {
      assert s[..|s| - 1] == s[..|s| - 1];
      TrimBlank(s[..|s| - 1]);
      assert TrimRight(s) == TrimRight(s[..|s| - 1]);
    }
  }

  lemma {:induction false} TrimLeftOfBlank(blank: string, s: string)
    requires IsBlank(blank) && s != "" && !IsSpace(s[0])
    ensures TrimLeft(blank + s) == s
  {
    if blank == "" {
      assert blank + s == s;
    } else {
      assert (blank + s)[1..] == blank[1..] + s;
      TrimLeftOfBlank(blank[1..], s);
    }
  }

  lemma {:induction false} TrimRightOfBlank(s: string, blank: string)
    requires IsBlank(blank) && s != "" && !IsSpace(s[|s| - 1])
    ensures TrimRight(s + blank) == s
  {
    if blank == "" {
      assert s + blank == s;
    } else {
      var last := |blank| - 1;
      assert (s + blank)[..|s + blank| - 1] == s + blank[..last];
      TrimRightOfBlank(s, blank[..last]);
    }
  }

  /** Blanks on both sides are trimmed. */
  lemma AddedWithin(before: string, s: string, after: string)
    requires IsBlank(before) && IsBlank(after)
    requires s != "" ==> !IsSpace(s[0]) && !IsSpace(s[|s| - 1])
    ensures Added(before + s + after) == if s == "" then [] else [Strip(s)]
  {
    if s == "" {
      TrimBlank(before + s + after);
    } else {
      var left := before + s;
      assert left[|left| - 1] == s[|s| - 1];
      TrimRightOfBlank(left, after);
      TrimLeftOfBlank(before, s);
    }
  }

  // ----- scanning over one argument -----

  lemma {:induction false} SkipBlank(f: string, start: nat, i: nat, blank: string)
    requires start <= i && IsAt(f, i, blank) && IsBlank(blank)
    ensures ArgumentsFrom(f, start, i) == ArgumentsFrom(f, start, i + |blank|)
    decreases |blank|
  {
    if blank != "" {
      assert blank == [blank[0]] + blank[1..];
      AtChar(f, i, blank[0], blank[1..]);
      SkipBlank(f, start, i + 1, blank[1..]);
    }
  }

  lemma PrintBlock(k: Kind, inner: Text, rest: Text)
    ensures Print(Block(k, inner, rest)) == [Open(k)] + PrintOn(inner, k, Print(rest))
  {
  }

  /** A word is passed over; commas and openers in its quotes do not count. */
  lemma {:induction false} SkipWord(f: string, start: nat, i: nat, t: Text)
    requires start <= i && IsAt(f, i, Print(t)) && IsWord(t)
    ensures ArgumentsFrom(f, start, i) == ArgumentsFrom(f, start, i + |Print(t)|)
    decreases t
  {
    hide BlockEnd, PrintOn, IsAt, FitsInside, Added;
    match t
    case End =>
    case Plain(c, rest) =>
      AtChar(f, i, c, Print(rest));
      SkipWord(f, start, i + 1, rest);
    case Block(k, inner, rest) =>
      PrintBlock(k, inner, rest);
      AtChar(f, i, '\"', PrintOn(inner, Quote, Print(rest)));
      BlockEndOfText(f, i + 1, inner, Quote, Print(rest));
      BehindBlock(f, i + 1, inner, Quote, Print(rest));
      SkipWord(f, start, i + 1 + |Print(inner)| + 1, rest);
  }

  lemma StepOnBracket(f: string, k: nat, i: nat)
    requires k <= i < |f| && (f[i] == '[' || f[i] == '(')
    ensures var e := BlockEnd(f, i + 1); ArgumentsFrom(f, k, i) == Added(f[k..e]) + ArgumentsFrom(f, e, e)
  {
  }

  lemma InRange(f: string, k: nat, p: string)
    requires IsAt(f, k, p)
    ensures k + |p| <= |f| && f[k..k + |p|] == p
  {
  }

  /** A comma ends the piece before it, and so does the end of the text. */
  lemma PieceEnds(f: string, k: nat, e: nat, rest: string)
    requires k <= e && IsAt(f, e, rest) && (if rest == "" then e == |f| else rest[0] == ',')
    ensures e <= |f|
    ensures ArgumentsFrom(f, k, e) == Added(f[k..e]) + if rest == "" then [] else ArgumentsFrom(f, e + 1, e + 1)
  {
    if rest != "" {
      assert rest == [rest[0]] + rest[1..];
      AtChar(f, e, rest[0], rest[1..]);
    }
  }

  lemma Regrouped(before: string, word: string, ending: string, after: string, rest: string)
    ensures before + (word + ending) + after + rest == before + (word + (ending + (after + rest)))
  {
    Associates(before, word + ending, after + rest);
    Associates(word, ending, after + rest);
    Associates(before + (word + ending), after, rest);
  }

  /** Four texts, one behind the other. */
  lemma FourParts(f: string, k: nat, p: string, q: string, r: string, t: string)
    requires IsAt(f, k, p + (q + (r + t)))
    ensures IsAt(f, k, p) && IsAt(f, k + |p|, q) && IsAt(f, k + |p| + |q|, r + t)
    ensures IsAt(f, k + |p| + |q|, r) && IsAt(f, k + |p| + |q| + |r|, t)
  {
    hide IsAt;
    AtParts(f, k, p, q + (r + t));
    AtParts(f, k + |p|, q, r + t);
    AtParts(f, k + |p| + |q|, r, t);
  }

  /** The parts of an argument, one behind the other. */
  lemma ArgumentParts(f: string, k: nat, a: Argument, rest: string)
    requires IsAt(f, k, a.before + a.Written() + a.after + rest)
    ensures var i := k + |a.before|;
            var j := i + |Print(a.word)|;
            var l := j + |a.ending.Written()|;
            && IsAt(f, k, a.before) && IsAt(f, i, Print(a.word)) && IsAt(f, j, a.ending.Written() + (a.after + rest))
            && IsAt(f, l, a.after) && IsAt(f, l + |a.after|, rest)
    ensures IsAt(f, k, a.before + a.Written()) && IsAt(f, k, a.before + a.Written() + a.after)
  {
    var word, ending := Print(a.word), a.ending.Written();
    assert a.Written() == word + ending;
    hide *;
    Regrouped(a.before, word, ending, a.after, rest);
    FourParts(f, k, a.before, word, ending, a.after + rest);
    AtParts(f, k + |a.before| + |word| + |ending|, a.after, rest);
    WholeParts(f, k, a.before + a.Written(), a.after, rest);
  }

  lemma WholeParts(f: string, k: nat, p: string, q: string, r: string)
    requires IsAt(f, k, p + q + r)
    ensures IsAt(f, k, p) && IsAt(f, k, p + q)
  {
    hide IsAt;
    AtParts(f, k, p + q, r);
    AtParts(f, k, p, q);
  }

  /** One argument without a block, up to the comma behind it. */
  lemma OneWord(f: string, k: nat, a: Argument, rest: string)
    requires a.IsWellNested() && a.ending.NoBlock? && IsAt(f, k, a.before + a.Written() + a.after + rest)
    requires var e := k + |a.before| + |a.Written()| + |a.after|; if rest == "" then e == |f| else rest[0] == ','
    ensures var e := k + |a.before| + |a.Written()| + |a.after|;
            && e <= |f|
            && ArgumentsFrom(f, k, k) == (if a.Written() == "" then [] else [Strip(a.Written())])
                                         + if rest == "" then [] else ArgumentsFrom(f, e + 1, e + 1)
  {
    hide IsAt, ArgumentsFrom, BlockEnd, Added, Print, IsBlank, IsWord, FitsInside;
    ArgumentParts(f, k, a, rest);
    SkipBlank(f, k, k, a.before);
    SkipWord(f, k, k + |a.before|, a.word);
    SkipBlank(f, k, k + |a.before| + |Print(a.word)|, a.after);
    InRange(f, k, a.before + a.Written() + a.after);
    PieceEnds(f, k, k + |a.before| + |a.Written()| + |a.after|, rest);
    AddedWithin(a.before, a.Written(), a.after);
  }

  /** An argument that ends with a block ends there. */
  lemma UpToBlock(f: string, k: nat, a: Argument, rest: string)
    requires a.IsWellNested() && a.ending.Blocked? && IsAt(f, k, a.before + a.Written() + a.after + rest)
    ensures var e := k + |a.before| + |a.Written()|;
            e <= |f| && ArgumentsFrom(f, k, k) == [Strip(a.Written())] + ArgumentsFrom(f, e, e)
  {
    hide IsAt, ArgumentsFrom, BlockEnd, Added, Print, PrintOn, IsBlank, IsWord, FitsInside;
    var Blocked(kind, text) := a.ending;
    ArgumentParts(f, k, a, rest);
    SkipBlank(f, k, k, a.before);
    SkipWord(f, k, k + |a.before|, a.word);
    var j := k + |a.before| + |Print(a.word)|;
    EndingOn(a.ending, a.after + rest);
    AtChar(f, j, Open(kind), PrintOn(text, kind, a.after + rest));
    BlockEndOfText(f, j + 1, text, kind, a.after + rest);
    StepOnBracket(f, k, j);
    InRange(f, k, a.before + a.Written());
    AddedWithin(a.before, a.Written(), "");
    assert a.before + a.Written() + "" == a.before + a.Written();
  }

  /** The blanks behind it add nothing. */
  lemma BlankTail(f: string, e: nat, blank: string, rest: string)
    requires IsAt(f, e, blank) && IsAt(f, e + |blank|, rest) && IsBlank(blank)
    requires if rest == "" then e + |blank| == |f| else rest[0] == ','
    ensures e + |blank| <= |f|
    ensures ArgumentsFrom(f, e, e) ==
              if rest == "" then [] else ArgumentsFrom(f, e + |blank| + 1, e + |blank| + 1)
  {
    hide IsAt, ArgumentsFrom, Added;
    InRange(f, e, blank);
    SkipBlank(f, e, e, blank);
    PieceEnds(f, e, e + |blank|, rest);
    TrimBlank(blank);
  }

  lemma OneBlock(f: string, k: nat, a: Argument, rest: string)
    requires a.IsWellNested() && a.ending.Blocked? && IsAt(f, k, a.before + a.Written() + a.after + rest)
    requires var e := k + |a.before| + |a.Written()| + |a.after|; if rest == "" then e == |f| else rest[0] == ','
    ensures var e := k + |a.before| + |a.Written()| + |a.after|;
            && e <= |f|
            && ArgumentsFrom(f, k, k) == [Strip(a.Written())]
                                         + if rest == "" then [] else ArgumentsFrom(f, e + 1, e + 1)
  {
    hide IsAt, ArgumentsFrom, Print, IsBlank, IsWord, FitsInside;
    ArgumentParts(f, k, a, rest);
    UpToBlock(f, k, a, rest);
    BlankTail(f, k + |a.before| + |a.Written()|, a.after, rest);
  }

  lemma EndingOn(ending: Ending, tail: string)
    requires ending.Blocked?
    ensures ending.Written() + tail == [Open(ending.kind)] + PrintOn(ending.text, ending.kind, tail)
    ensures |ending.Written()| == |Print(ending.text)| + 2
  {
  }

  /** Only an argument in brackets alone is bracketed, and stripping it strips what it holds. */
  lemma StripWritten(a: Argument)
    requires a.IsWellNested() && a.Written() != ""
    ensures Strip(a.Written()) == Strip(a.Content())
  {
    var s := a.Written();
    if Print(a.word) == "" && a.ending.Blocked? && a.ending.kind == Square {
      assert s == "[" + Print(a.ending.text) + "]";
      assert s[1..|s| - 1] == Print(a.ending.text);
    }
  }

  lemma {:induction false} ParseJoined(f: string, k: nat, args: seq<Argument>)
    requires forall a | a in args :: a.IsWellNested()
    requires IsAt(f, k, Joined(args)) && k + |Joined(args)| == |f|
    ensures ArgumentsFrom(f, k, k) == Stripped(args)
    decreases |args|
  {
    hide ArgumentsFrom, IsAt, Argument.Written, Argument.Content, Argument.IsWellNested, Strip, Print;
    if args == [] {
      NothingLeft(f);
    } else {
      var a, rest := args[0], if |args| == 1 then "" else "," + Joined(args[1..]);
      assert a in args;
      assert Joined(args) == a.before + a.Written() + a.after + rest;
      if a.ending.NoBlock? {
        OneWord(f, k, a, rest);
      } else {
        OneBlock(f, k, a, rest);
        BlockIsWritten(a);
      }
      if a.Written() != "" {
        StripWritten(a);
      }
      if |args| > 1 {
        ArgumentParts(f, k, a, rest);
        var e := k + |a.before| + |a.Written()| + |a.after|;
        WrittenParts(a);
        AtChar(f, e, ',', Joined(args[1..]));
        ParseJoined(f, e + 1, args[1..]);
      }
    }
  }

  lemma BlockIsWritten(a: Argument)
    requires a.ending.Blocked?
    ensures a.Written() != ""
  {
  }

  lemma WrittenParts(a: Argument)
    ensures |a.Written()| == |Print(a.word)| + |a.ending.Written()|
  {
  }

  lemma NothingLeft(f: string)
    ensures ArgumentsFrom(f, |f|, |f|) == []
  {
    TrimBlank("");
  }

  lemma {:induction false} StrippedAreContents(args: seq<Argument>)
    requires forall a | a in args :: a.IsWellNested()
    ensures Stripped(args) == Contents(args) <==> forall a | a in args :: !IsBracketed(a.Content())
    ensures |Stripped(args)| == |Contents(args)|
  {
    hide Argument.Written, Argument.Content, Argument.IsWellNested, Strip;
    if args != [] {
      var a := args[0];
      StrippedAreContents(args[1..]);
      StripShortens(a.Content());
      NothingIsBare(a);
      assert args == [a] + args[1..];
      if a.Written() == "" {
        assert Stripped(args) == Stripped(args[1..]) && Contents(args) == Contents(args[1..]);
      } else {
        assert Stripped(args)[0] == Strip(a.Content()) && Stripped(args)[1..] == Stripped(args[1..]);
        assert Contents(args)[0] == a.Content() && Contents(args)[1..] == Contents(args[1..]);
      }
    }
  }

  lemma NothingIsBare(a: Argument)
    ensures a.Written() == "" ==> !IsBracketed(a.Content())
  {
  }

  lemma {:induction false} StripShortens(s: string)
    ensures |Strip(s)| <= |s|
    ensures Strip(s) == s <==> !IsBracketed(s)
  {
    if IsBracketed(s) {
      StripShortens(s[1..|s| - 1]);
    }
  }

  /** Parsing arguments joined with commas gives what they say, in order, without the blanks around
      them; commas in blocks and quotes do not separate. The texts come back unchanged exactly when
      none of them is itself in brackets, for such brackets are taken off as well. */
  lemma ParsingUndoesJoining(args: seq<Argument>)
    requires forall a | a in args :: a.IsWellNested()
    ensures ArgumentsFrom(Joined(args), 0, 0) == Stripped(args)
    ensures ArgumentsFrom(Joined(args), 0, 0) == Contents(args) <==> forall a | a in args :: !IsBracketed(a.Content())
  {
    ParseJoined(Joined(args), 0, args);
    StrippedAreContents(args);
  }

  /** A block that is never closed takes in all the rest, as one argument with the word before it. */
  lemma UnclosedTakesAll(word: Text, k: Kind, rest: string)
    requires IsWord(word) && k != Quote
    requires NeverCloses(Print(word) + [Open(k)] + rest, |Print(word)| + 1, k)
    ensures var f := Print(word) + [Open(k)] + rest; ArgumentsFrom(f, 0, 0) == Added(f)
  {
    hide ArgumentsFrom, BlockEnd, Added, Print, IsWord, Closes, IsSkipped;
    var f, j := Print(word) + [Open(k)] + rest, |Print(word)|;
    WordInFrontIsAt(Print(word), [Open(k)] + rest);
    assert f == Print(word) + ([Open(k)] + rest) && f[j] == Open(k);
    SkipWord(f, 0, 0, word);
    StepOnBracket(f, 0, j);
    SkippedIsBlock(f, j + 1, k);
    NothingLeft(f);
    assert f[0..|f|] == f;
  }

  lemma WordInFrontIsAt(word: string, rest: string)
    ensures IsAt(word + rest, 0, word)
  {
  }

  // ----- ordinary arguments -----

  /** Characters that nothing special becomes of. */
  predicate IsOrdinary(s: string) {
    s != "" && forall c | c in s :: c != ',' && c != '(' && c != '[' && c != '\"' && !IsSpace(c)
  }

  function WordOf(s: string): Text {
    if s == "" then End else Plain(s[0], WordOf(s[1..]))
  }

  function WordsOf(words: seq<string>): seq<Argument> {
    if words == [] then [] else [Argument("", WordOf(words[0]), NoBlock, "")] + WordsOf(words[1..])
  }

  function CommaJoined(words: seq<string>): string {
    if words == [] then "" else if |words| == 1 then words[0] else words[0] + "," + CommaJoined(words[1..])
  }

  lemma {:induction false} WordOfPrints(s: string)
    requires forall c | c in s :: c != ',' && c != '(' && c != '[' && c != '\"'
    ensures Print(WordOf(s)) == s && IsWord(WordOf(s))
  {
    if s != "" {
      assert s == [s[0]] + s[1..] && s[0] in s && forall c | c in s[1..] :: c in s;
      WordOfPrints(s[1..]);
    }
  }

  lemma WordIsArgument(w: string)
    requires IsOrdinary(w)
    ensures var a := Argument("", WordOf(w), NoBlock, "");
            a.IsWellNested() && a.Written() == w && a.Content() == w && Strip(w) == w && w != ""
  {
    WordOfPrints(w);
    assert w[0] in w && w[|w| - 1] in w;
  }

  lemma WordInFront(a: Argument, w: string, args: seq<Argument>, words: seq<string>)
    requires a.before == a.after == "" && a.Written() == w != "" && Strip(a.Content()) == w
    requires Joined(args) == CommaJoined(words) && Stripped(args) == words && |args| == |words|
    ensures Joined([a] + args) == CommaJoined([w] + words) && Stripped([a] + args) == [w] + words
  {
    hide Argument.Written, Argument.Content, Strip;
    var both, texts := [a] + args, [w] + words;
    assert both[1..] == args && texts[1..] == words;
    assert a.before + a.Written() + a.after == w;
    assert Stripped(both) == [Strip(both[0].Content())] + Stripped(both[1..]);
  }

  lemma {:induction false} WordsAreArguments(words: seq<string>)
    requires forall w | w in words :: IsOrdinary(w)
    ensures forall a | a in WordsOf(words) :: a.IsWellNested()
    ensures Joined(WordsOf(words)) == CommaJoined(words) && Stripped(WordsOf(words)) == words
    ensures |WordsOf(words)| == |words|
  {
    if words != [] {
      var w := words[0];
      var a := Argument("", WordOf(w), NoBlock, "");
      WordIsArgument(w);
      hide IsOrdinary, Argument.IsWellNested, Argument.Written, Argument.Content, WordOf, Strip;
      WordsAreArguments(words[1..]);
      WordInFront(a, w, WordsOf(words[1..]), words[1..]);
      assert words == [w] + words[1..] && WordsOf(words) == [a] + WordsOf(words[1..]);
    }
  }

  /** Words without anything special in them, joined with commas, are parsed into just these. */
  lemma WordsAreParsed(words: seq<string>)
    requires forall w | w in words :: IsOrdinary(w)
    ensures ArgumentsFrom(CommaJoined(words), 0, 0) == words
  {
    WordsAreArguments(words);
    ParsingUndoesJoining(WordsOf(words));
  }
}
