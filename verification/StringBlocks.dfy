/** The scanner that finds the end of a bracketed or quoted block. */
module StringBlocks {

  // ----- the scanner -----

  /** Where the block ends that is opened by the character before i. */
  function BlockEnd(s: string, i: nat): (r: nat)
    requires 1 <= i <= |s|
    ensures i <= r <= |s|
    decreases |s| - i, 1
  {
    var c := s[i - 1];
    ScanEnd(s, i, if c == '(' then 1 else 0, if c == '[' then 1 else 0, if c == '\"' then 1 else 0)
  }

  /** Scans on while a block is open; nested blocks are skipped as a whole. */
  function ScanEnd(s: string, i: nat, curly: int, square: int, quotes: int): (r: nat)
    requires 1 <= i <= |s|
    ensures i <= r <= |s|
    decreases |s| - i, 0
  {
    if !(curly > 0 || square > 0 || quotes > 0) || i == |s| then i
    else if s[i] == '\"' then
      if s[i - 1] == '\\' then ScanEnd(s, i + 1, curly, square, quotes)
      else if quotes == 0 then ScanEnd(s, BlockEnd(s, i + 1), curly, square, quotes)
      else ScanEnd(s, i + 1, curly, square, quotes - 1)
    else if s[i] == '(' || s[i] == '[' then ScanEnd(s, BlockEnd(s, i + 1), curly, square, quotes)
    else ScanEnd(s, i + 1, if s[i] == ')' then curly - 1 else curly, if s[i] == ']' then square - 1 else square, quotes)
  }

  method GetEndOfStringBlock(s: string, start: nat) returns (r: nat)
    requires 1 <= start <= |s|
    ensures r == BlockEnd(s, start)
    decreases |s| - start
  {
    var i := start;
    var c := s[i - 1];
    var curly := if c == '(' then 1 else 0;
    var square := if c == '[' then 1 else 0;
    var quotes := if c == '\"' then 1 else 0;
    while (curly > 0 || square > 0 || quotes > 0) && i < |s|
      invariant start <= i <= |s|
      invariant ScanEnd(s, i, curly, square, quotes) == BlockEnd(s, start)
      decreases |s| - i
    {
      c := s[i];
      if c == '\"' {
        if s[i - 1] == '\\' {
        } else if quotes == 0 {
          var end := GetEndOfStringBlock(s, i + 1);
          i := end - 1;
        } else {
          quotes := quotes - 1;
        }
      } else {
        match c
        case '(' =>
          var end := GetEndOfStringBlock(s, i + 1);
          i := end - 1;
        case '[' =>
          var end := GetEndOfStringBlock(s, i + 1);
          i := end - 1;
        case ')' => curly := curly - 1;
        case ']' => square := square - 1;
        case _ =>
      }
      i := i + 1;
    }
    r := i;
  }

  // ----- nested texts -----

  datatype Kind = Paren | Square | Quote

  function Open(k: Kind): char {
    match k case Paren => '(' case Square => '[' case Quote => '\"'
  }

  function Close(k: Kind): char {
    match k case Paren => ')' case Square => ']' case Quote => '\"'
  }

  /** A text with blocks nested in it. */
  datatype Text =
    | End | Plain(c: char, rest: Text) | EscapedQuote(rest: Text)
    | Block(kind: Kind, inner: Text, rest: Text)

  function Print(t: Text): string {
    match t
    case End => ""
    case Plain(c, rest) => [c] + Print(rest)
    case EscapedQuote(rest) => ['\\', '\"'] + Print(rest)
    case Block(k, inner, rest) => [Open(k)] + Print(inner) + [Close(k)] + Print(rest)
  }

  /** The text may stand inside a block of kind k. A plain character opens nothing and does not
      close the block; closers of other kinds may stand alone. A quoted block does not directly
      hold another, and no quote that opens or closes a block follows a backslash. */
  predicate FitsInside(t: Text, k: Kind, afterBackslash: bool) {
    match t
    case End => k == Quote ==> !afterBackslash
    case Plain(c, rest) => c != '(' && c != '[' && c != '\"' && c != Close(k) && FitsInside(rest, k, c == '\\')
    case EscapedQuote(rest) => FitsInside(rest, k, false)
    case Block(k', inner, rest) =>
      && (k' == Quote ==> k != Quote && !afterBackslash)
      && FitsInside(inner, k', false) && FitsInside(rest, k, false)
  }

  /** The counters inside a block of kind k: its own shows one open block, the others none. */
  predicate IsOpen(k: Kind, curly: int, square: int, quotes: int) {
    && (if k == Paren then curly == 1 else curly <= 0)
    && (if k == Square then square == 1 else square <= 0)
    && quotes == if k == Quote then 1 else 0
  }

  predicate IsAt(s: string, i: nat, p: string) {
    i + |p| <= |s| && s[i..i + |p|] == p
  }

  lemma AtParts(s: string, i: nat, p: string, q: string)
    requires IsAt(s, i, p + q)
    ensures IsAt(s, i, p) && IsAt(s, i + |p|, q)
  {
    var whole := s[i..i + |p + q|];
    assert s[i..i + |p|] == whole[..|p|];
    assert s[i + |p|..i + |p| + |q|] == whole[|p|..];
  }

  lemma AtChar(s: string, i: nat, c: char, q: string)
    requires IsAt(s, i, [c] + q)
    ensures i < |s| && s[i] == c && IsAt(s, i + 1, q)
  {
    AtParts(s, i, [c], q);
    assert s[i..i + 1][0] == s[i];
  }

  // ----- single steps inside a block -----

  lemma StepOnCloser(s: string, i: nat, k: Kind, curly: int, square: int, quotes: int)
    requires 1 <= i < |s| && s[i] == Close(k) && IsOpen(k, curly, square, quotes) && (k == Quote ==> s[i - 1] != '\\')
    ensures ScanEnd(s, i, curly, square, quotes) == i + 1
  {
  }

  lemma StepOnPlain(s: string, i: nat, k: Kind, curly: int, square: int, quotes: int) returns (curly': int,
                    square': int)
    requires 1 <= i < |s| && s[i] != '(' && s[i] != '[' && s[i] != '\"' && s[i] != Close(k)
    requires IsOpen(k, curly, square, quotes)
    ensures IsOpen(k, curly', square', quotes)
    ensures ScanEnd(s, i, curly, square, quotes) == ScanEnd(s, i + 1, curly', square', quotes)
  {
    curly' := if s[i] == ')' then curly - 1 else curly;
    square' := if s[i] == ']' then square - 1 else square;
  }

  lemma StepOnEscapedQuote(s: string, i: nat, k: Kind, curly: int, square: int, quotes: int)
    requires 1 <= i && i + 1 < |s| && s[i] == '\\' && s[i + 1] == '\"' && IsOpen(k, curly, square, quotes)
    ensures ScanEnd(s, i, curly, square, quotes) == ScanEnd(s, i + 2, curly, square, quotes)
  {
  }

  lemma StepOnBlock(s: string, i: nat, k: Kind, inner: Kind, curly: int, square: int, quotes: int)
    requires 1 <= i < |s| && s[i] == Open(inner) && IsOpen(k, curly, square, quotes)
    requires inner == Quote ==> k != Quote && s[i - 1] != '\\'
    ensures ScanEnd(s, i, curly, square, quotes) == ScanEnd(s, BlockEnd(s, i + 1), curly, square, quotes)
  {
  }

  /** Behind a character that opens nothing there is nothing to skip. */
  lemma NothingIsOpen(s: string, i: nat)
    requires 1 <= i <= |s| && s[i - 1] != '(' && s[i - 1] != '[' && s[i - 1] != '\"'
    ensures BlockEnd(s, i) == i
  {
  }

  // ----- whole texts -----

  /** What is printed from a text inside a block on. */
  function PrintOn(t: Text, k: Kind, after: string): string {
    Print(t) + [Close(k)] + after
  }

  lemma PrintOnPlain(c: char, rest: Text, k: Kind, after: string)
    ensures PrintOn(Plain(c, rest), k, after) == [c] + PrintOn(rest, k, after)
    ensures PrintOn(End, k, after) == [Close(k)] + after
    ensures PrintOn(EscapedQuote(rest), k, after) == ['\\'] + (['\"'] + PrintOn(rest, k, after))
  {
    Associates([c], Print(rest), [Close(k)] + after);
    assert ['\\', '\"'] + Print(rest) == ['\\'] + (['\"'] + Print(rest));
  }

  lemma Associates(a: string, b: string, c: string)
    ensures a + b + c == a + (b + c)
  {
  }

  lemma PrintOnBlock(inner: Kind, t: Text, rest: Text, k: Kind, after: string)
    ensures PrintOn(Block(inner, t, rest), k, after) == [Open(inner)] + PrintOn(t, inner, PrintOn(rest, k, after))
  {
  }

  lemma BehindBlock(s: string, i: nat, t: Text, k: Kind, tail: string)
    requires IsAt(s, i, PrintOn(t, k, tail))
    ensures i + |Print(t)| < |s| && s[i + |Print(t)|] == Close(k) && IsAt(s, i + |Print(t)| + 1, tail)
  {
    hide IsAt, Print;
    assert PrintOn(t, k, tail) == Print(t) + ([Close(k)] + tail);
    AtParts(s, i, Print(t), [Close(k)] + tail);
    AtChar(s, i + |Print(t)|, Close(k), tail);
  }

  /** Scanning a text inside a block and then the block's closer ends behind the closer. */
  lemma {:induction false} ScanText(s: string, i: nat, t: Text, k: Kind, after: string, curly: int,
                                    square: int, quotes: int)
    requires 1 <= i <= |s| && IsAt(s, i, PrintOn(t, k, after))
    requires FitsInside(t, k, s[i - 1] == '\\') && IsOpen(k, curly, square, quotes)
    ensures ScanEnd(s, i, curly, square, quotes) == i + |Print(t)| + 1
    decreases t, 1
  {
    hide ScanEnd, BlockEnd, IsOpen, PrintOn, IsAt;
    match t
    case End =>
      PrintOnPlain(' ', End, k, after);
      AtChar(s, i, Close(k), after);
      StepOnCloser(s, i, k, curly, square, quotes);
    case Plain(c, rest) =>
      PrintOnPlain(c, rest, k, after);
      AtChar(s, i, c, PrintOn(rest, k, after));
      var curly', square' := StepOnPlain(s, i, k, curly, square, quotes);
      ScanText(s, i + 1, rest, k, after, curly', square', quotes);
    case EscapedQuote(rest) =>
      PrintOnPlain(' ', rest, k, after);
      AtChar(s, i, '\\', ['\"'] + PrintOn(rest, k, after));
      AtChar(s, i + 1, '\"', PrintOn(rest, k, after));
      StepOnEscapedQuote(s, i, k, curly, square, quotes);
      ScanText(s, i + 2, rest, k, after, curly, square, quotes);
    case Block(_, _, _) =>
      ScanTextFromBlock(s, i, t, k, after, curly, square, quotes);
  }

  lemma {:induction false} ScanTextFromBlock(s: string, i: nat, t: Text, k: Kind, after: string, curly: int,
                                             square: int, quotes: int)
    requires 1 <= i <= |s| && IsAt(s, i, PrintOn(t, k, after)) && t.Block?
    requires FitsInside(t, k, s[i - 1] == '\\') && IsOpen(k, curly, square, quotes)
    ensures ScanEnd(s, i, curly, square, quotes) == i + |Print(t)| + 1
    decreases t, 0
  {
    hide ScanEnd, BlockEnd, IsOpen, PrintOn, IsAt;
    var Block(inner, t', rest) := t;
    PrintOnBlock(inner, t', rest, k, after);
    AtChar(s, i, Open(inner), PrintOn(t', inner, PrintOn(rest, k, after)));
    StepOnBlock(s, i, k, inner, curly, square, quotes);
    BlockEndOfText(s, i + 1, t', inner, PrintOn(rest, k, after));
    BehindBlock(s, i + 1, t', inner, PrintOn(rest, k, after));
    ScanText(s, i + 1 + |Print(t')| + 1, rest, k, after, curly, square, quotes);
  }

  lemma {:induction false} BlockEndOfText(s: string, i: nat, t: Text, k: Kind, after: string)
    requires 1 <= i <= |s| && IsAt(s, i, PrintOn(t, k, after)) && s[i - 1] == Open(k)
    requires FitsInside(t, k, false)
    ensures BlockEnd(s, i) == i + |Print(t)| + 1
    decreases t, 2
  {
    hide ScanEnd, IsAt, PrintOn;
    ScanText(s, i, t, k, after, if k == Paren then 1 else 0, if k == Square then 1 else 0, if k == Quote then 1 else 0);
  }

  /** Whatever stands before and behind a block, its end is found just past its closer. */
  lemma BlockIsSkipped(before: string, k: Kind, t: Text, after: string)
    requires FitsInside(t, k, false)
    ensures BlockEnd(before + [Open(k)] + Print(t) + [Close(k)] + after, |before| + 1) == |before| + 1 + |Print(t)| + 1
  {
    var s := before + [Open(k)] + Print(t) + [Close(k)] + after;
    var i := |before| + 1;
    var rest := Print(t) + [Close(k)] + after;
    assert s == before + [Open(k)] + rest;
    assert s[i..i + |rest|] == rest;
    BlockEndOfText(s, i, t, k, after);
  }

  // ----- the converse: what was skipped -----

  lemma AtJoined(s: string, i: nat, p: string, q: string)
    requires IsAt(s, i, p) && IsAt(s, i + |p|, q)
    ensures IsAt(s, i, p + q)
  {
    assert s[i..i + |p + q|] == s[i..i + |p|] + s[i + |p|..i + |p| + |q|];
  }

  lemma AtNext(s: string, i: nat, c: char, q: string)
    requires i < |s| && s[i] == c && IsAt(s, i + 1, q)
    ensures IsAt(s, i, [c] + q)
  {
    assert s[i..i + 1] == [c];
    AtJoined(s, i, [c], q);
  }

  /** A text that fits is closed from i on. */
  ghost predicate Closes(s: string, i: nat, k: Kind, t: Text) {
    1 <= i <= |s| && FitsInside(t, k, s[i - 1] == '\\') && IsAt(s, i, PrintOn(t, k, ""))
  }

  /** A scan that is not at an escaped quote reads a text up to its closer, or all the rest. */
  lemma {:induction false} ReadText(s: string, i: nat, k: Kind, curly: int, square: int, quotes: int)
    returns (t: Text)
    requires 1 <= i <= |s| && IsOpen(k, curly, square, quotes)
    requires i < |s| && s[i - 1] == '\\' ==> s[i] != '\"'
    ensures Closes(s, i, k, t) || ScanEnd(s, i, curly, square, quotes) == |s|
    decreases |s| - i
  {
    hide ScanEnd, BlockEnd, IsOpen, PrintOn, IsAt;
    t := End;
    if i == |s| {
      ScanStops(s, curly, square, quotes);
    } else if s[i] == Close(k) {
      PrintOnPlain(' ', End, k, "");
      AtEnd(s, i + 1);
      AtNext(s, i, Close(k), "");
    } else if s[i] == '\\' && i + 1 < |s| && s[i + 1] == '\"' {
      StepOnEscapedQuote(s, i, k, curly, square, quotes);
      var rest := ReadText(s, i + 2, k, curly, square, quotes);
      t := EscapedQuote(rest);
      if Closes(s, i + 2, k, rest) {
        PrintOnPlain(' ', rest, k, "");
        AtNext(s, i + 1, '\"', PrintOn(rest, k, ""));
        AtNext(s, i, '\\', ['\"'] + PrintOn(rest, k, ""));
      }
    } else if s[i] == '(' {
      t := ReadBlock(s, i, k, Paren, curly, square, quotes);
    } else if s[i] == '[' {
      t := ReadBlock(s, i, k, Square, curly, square, quotes);
    } else if s[i] == '\"' {
      t := ReadBlock(s, i, k, Quote, curly, square, quotes);
    } else {
      var curly', square' := StepOnPlain(s, i, k, curly, square, quotes);
      var rest := ReadText(s, i + 1, k, curly', square', quotes);
      t := Plain(s[i], rest);
      if Closes(s, i + 1, k, rest) {
        PrintOnPlain(s[i], rest, k, "");
        AtNext(s, i, s[i], PrintOn(rest, k, ""));
      }
    }
  }

  lemma ScanStops(s: string, curly: int, square: int, quotes: int)
    requires 1 <= |s|
    ensures ScanEnd(s, |s|, curly, square, quotes) == |s|
  {
  }

  lemma AtEnd(s: string, i: nat)
    requires i <= |s|
    ensures IsAt(s, i, "")
  {
  }

  lemma {:induction false} ReadBlock(s: string, i: nat, k: Kind, inner: Kind, curly: int, square: int, quotes: int)
    returns (t: Text)
    requires 1 <= i < |s| && IsOpen(k, curly, square, quotes) && s[i] == Open(inner)
    requires inner == Quote ==> k != Quote && s[i - 1] != '\\'
    ensures Closes(s, i, k, t) || ScanEnd(s, i, curly, square, quotes) == |s|
    decreases |s| - i, 0
  {
    hide ScanEnd, IsOpen, PrintOn, IsAt;
    StepOnBlock(s, i, k, inner, curly, square, quotes);
    var t', rest := End, End;
    OpenInside(inner);
    t' := ReadText(s, i + 1, inner, if inner == Paren then 1 else 0, if inner == Square then 1 else 0,
                   if inner == Quote then 1 else 0);
    if Closes(s, i + 1, inner, t') {
      BlockEndOfText(s, i + 1, t', inner, "");
      var end := i + 1 + |Print(t')| + 1;
      BehindBlock(s, i + 1, t', inner, "");
      rest := ReadText(s, end, k, curly, square, quotes);
      if Closes(s, end, k, rest) {
        BlockJoined(s, i, inner, t', rest, k);
      }
    } else {
      ScanStops(s, curly, square, quotes);
    }
    t := Block(inner, t', rest);
  }

  lemma OpenInside(k: Kind)
    ensures IsOpen(k, if k == Paren then 1 else 0, if k == Square then 1 else 0, if k == Quote then 1 else 0)
  {
  }

  lemma BlockJoined(s: string, i: nat, inner: Kind, t: Text, rest: Text, k: Kind)
    requires i < |s| && s[i] == Open(inner) && IsAt(s, i + 1, PrintOn(t, inner, ""))
    requires IsAt(s, i + 1 + |Print(t)| + 1, PrintOn(rest, k, ""))
    ensures IsAt(s, i, PrintOn(Block(inner, t, rest), k, ""))
  {
    hide IsAt, Print;
    PrintOnBlock(inner, t, rest, k, "");
    assert PrintOn(t, inner, "") + PrintOn(rest, k, "") == PrintOn(t, inner, PrintOn(rest, k, ""));
    AtJoined(s, i + 1, PrintOn(t, inner, ""), PrintOn(rest, k, ""));
    AtNext(s, i, Open(inner), PrintOn(t, inner, PrintOn(rest, k, "")));
  }

  ghost predicate NeverCloses(s: string, i: nat, k: Kind) { forall t :: !Closes(s, i, k, t) }

  /** What the scan has skipped is the text and its closer. */
  ghost predicate IsSkipped(s: string, i: nat, k: Kind, t: Text) {
    1 <= i <= |s| && FitsInside(t, k, false) && s[i..BlockEnd(s, i)] == Print(t) + [Close(k)]
  }

  lemma SkippedIffCloses(s: string, i: nat, k: Kind, t: Text)
    requires 1 <= i <= |s| && s[i - 1] == Open(k)
    ensures IsSkipped(s, i, k, t) <==> Closes(s, i, k, t)
  {
    assert PrintOn(t, k, "") == Print(t) + [Close(k)];
    if Closes(s, i, k, t) {
      BlockEndOfText(s, i, t, k, "");
    }
    if IsSkipped(s, i, k, t) {
      assert |s[i..BlockEnd(s, i)]| == |PrintOn(t, k, "")|;
    }
  }

  /** Either a fitting text with its closer follows the opener, and just that is skipped, or none
      does, and the scan runs to the end. */
  lemma SkippedIsBlock(s: string, i: nat, k: Kind)
    requires 1 <= i <= |s| && s[i - 1] == Open(k)
    ensures forall t :: IsSkipped(s, i, k, t) <==> Closes(s, i, k, t)
    ensures (exists t :: IsSkipped(s, i, k, t)) || BlockEnd(s, i) == |s|
  {
    hide Closes, IsSkipped, ScanEnd;
    OpenInside(k);
    var read := ReadText(s, i, k, if k == Paren then 1 else 0, if k == Square then 1 else 0,
                         if k == Quote then 1 else 0);
    forall t
      ensures IsSkipped(s, i, k, t) <==> Closes(s, i, k, t)
    {
      SkippedIffCloses(s, i, k, t);
    }
  }
}
