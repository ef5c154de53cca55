/** SQL LIKE, and what it means that root projects look up their children with it. */
module LikePattern {

  predicate IsPathChar(c: char) { 'a' <= c <= 'z' || '0' <= c <= '9' || c == '.' || c == '_' }

  /** A project path as it is stored: lower-case letters, digits, dots and underscores. */
  predicate IsPath(s: string) { forall c | c in s :: IsPathChar(c) }

  function Lower(c: char): char {
    if 'A' <= c <= 'Z' then (c as int + 32) as char else c
  }

  /** '%' stands for any text and '_' for any one character; the case of letters is ignored. */
  predicate Like(pattern: string, s: string)
    decreases |pattern| + |s|
  {
    if pattern == "" then s == ""
    else if pattern[0] == '%' then Like(pattern[1..], s) || (s != "" && Like(pattern, s[1..]))
    else s != "" && (pattern[0] == '_' || Lower(pattern[0]) == Lower(s[0])) && Like(pattern[1..], s[1..])
  }

  /** Texts that differ in the case of letters only. */
  predicate IsAlike(s: string, t: string) {
    |s| == |t| && forall k | 0 <= k < |s| :: Lower(s[k]) == Lower(t[k])
  }

  lemma {:induction false} LikeIgnoresCase(pattern: string, s: string, t: string)
    requires IsAlike(s, t)
    ensures Like(pattern, s) <==> Like(pattern, t)
    decreases |pattern| + |s|
  {
    if pattern != "" {
      if s != "" {
        LikeIgnoresCase(pattern, s[1..], t[1..]);
        LikeIgnoresCase(pattern[1..], s[1..], t[1..]);
      }
      LikeIgnoresCase(pattern[1..], s, t);
    }
  }

  /** The pattern by which the children of a root project are selected. */
  function ChildPattern(root: string): string { root + ".%" }

  /** What the select is meant to find: paths that continue the root's path with a dot. */
  predicate IsBelow(root: string, path: string) { root + "." <= path }

  lemma {:induction false} PercentMatchesAll(s: string)
    ensures Like("%", s)
  {
    if s != "" {
      PercentMatchesAll(s[1..]);
    }
  }

  /** The path continues the root with a dot, where an underscore of the root fits anything. */
  predicate Fits(root: string, path: string) {
    path != "" &&
    if root == "" then path[0] == '.'
    else (root[0] == '_' || root[0] == path[0]) && Fits(root[1..], path[1..])
  }

  lemma {:induction false} ChildPatternFits(root: string, path: string)
    requires IsPath(root) && IsPath(path)
    ensures Like(ChildPattern(root), path) <==> Fits(root, path)
  {
    var pattern := ChildPattern(root);
    if path != "" {
      assert path[0] in path;
      if root == "" {
        assert pattern[1..] == "%";
        PercentMatchesAll(path[1..]);
      } else {
        assert root[0] in root && pattern[1..] == ChildPattern(root[1..]);
        ChildPatternFits(root[1..], path[1..]);
      }
    } else if root != "" {
      assert root[0] in root;
    }
  }

  lemma {:induction false} FitsMeansBelow(root: string, path: string)
    requires '_' !in root
    ensures Fits(root, path) <==> IsBelow(root, path)
  {
    if root == "" {
    } else if path != "" {
      FitsMeansBelow(root[1..], path[1..]);
      assert root == [root[0]] + root[1..] && path == [path[0]] + path[1..];
      assert root + "." == [root[0]] + (root[1..] + ".");
    }
  }

  /** A path outside the root that its pattern matches nevertheless. */
  lemma {:induction false} UnderscoreFitsStranger(root: string, i: nat)
    requires IsPath(root) && i < |root| && root[i] == '_'
    ensures var stranger := root[i := 'a'] + ".";
            IsPath(stranger) && Fits(root, stranger) && !IsBelow(root, stranger)
  {
    var stranger := root[i := 'a'] + ".";
    assert stranger[i] == 'a' && (root + ".")[i] == '_';
    FitsItself(root, root[i := 'a'], ".");
  }

  lemma {:induction false} FitsItself(root: string, same: string, tail: string)
    requires |same| == |root| && forall k | 0 <= k < |root| :: root[k] == '_' || root[k] == same[k]
    requires tail != "" && tail[0] == '.'
    ensures Fits(root, same + tail)
  {
    if root != "" {
      FitsItself(root[1..], same[1..], tail);
      assert (same + tail)[1..] == same[1..] + tail;
    } else {
      assert same + tail == tail;
    }
  }

  /** The children that are selected are the projects below the root for every content of the
      table exactly when the root's path has no underscore. */
  lemma ChildrenAreBelowIffNoUnderscore(root: string)
    requires IsPath(root)
    ensures (forall path :: IsPath(path) ==> (Like(ChildPattern(root), path) <==> IsBelow(root, path)))
       <==> '_' !in root
  {
    if '_' in root {
      var i :| 0 <= i < |root| && root[i] == '_';
      UnderscoreFitsStranger(root, i);
      ChildPatternFits(root, root[i := 'a'] + ".");
    } else {
      forall path | IsPath(path)
        ensures Like(ChildPattern(root), path) <==> IsBelow(root, path)
      {
        ChildPatternFits(root, path);
        FitsMeansBelow(root, path);
      }
    }
  }
}
