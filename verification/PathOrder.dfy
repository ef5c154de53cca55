/** The order of project paths, and on which sets of paths it can sort. */
module PathOrder {
  import opened Strings
  import opened ProjectPaths

  /** The lexicographic order of vectors of strings. */
  predicate ElementsLess(a: seq<string>, b: seq<string>) {
    b != [] && (a == [] || LexLess(a[0], b[0]) || (a[0] == b[0] && ElementsLess(a[1..], b[1..])))
  }

  lemma {:induction false} ElementsTrichotomy(a: seq<string>, b: seq<string>)
    ensures !(ElementsLess(a, b) && ElementsLess(b, a))
    ensures a == b <==> !ElementsLess(a, b) && !ElementsLess(b, a)
  {
    if a != [] && b != [] {
      LexTrichotomy(a[0], b[0]);
      ElementsTrichotomy(a[1..], b[1..]);
      if a[0] == b[0] && a[1..] == b[1..] {
        assert a == [a[0]] + a[1..] == b;
      }
    }
  }

  lemma {:induction false} ElementsTransitive(a: seq<string>, b: seq<string>, c: seq<string>)
    requires ElementsLess(a, b) && ElementsLess(b, c)
    ensures ElementsLess(a, c)
  {
    if a != [] {
      if LexLess(a[0], b[0]) && LexLess(b[0], c[0]) {
        LexTransitive(a[0], b[0], c[0]);
      } else if a[0] == b[0] == c[0] {
        ElementsTransitive(a[1..], b[1..], c[1..]);
      }
    }
  }

  /** operator<: org comes first, then pvt; other namespaces are compared only with themselves. */
  predicate Less(p: ProjectPath, q: ProjectPath) {
    var a, b := p.elements, q.elements;
    if a == [] && b == [] then false
    else if a == [] then true
    else if b == [] then false
    else if a[0] == b[0] then ElementsLess(a, b)
    else if a[0] == "org" then true
    else if b[0] == "org" then false
    else if a[0] == "pvt" then true
    else false
  }

  predicate IsOther(p: ProjectPath) {
    p.elements != [] && p.elements[0] != "org" && p.elements[0] != "pvt"
  }

  predicate Ties(p: ProjectPath, q: ProjectPath) {
    !Less(p, q) && !Less(q, p)
  }

  /** What a sorted container needs of its order: ties are transitive. */
  ghost predicate CanSort(s: set<ProjectPath>) {
    forall p, q, r | p in s && q in s && r in s && Ties(p, q) && Ties(q, r) :: Ties(p, r)
  }

  /** Two paths of one other namespace, and a path of a second one. */
  predicate Mixes(p: ProjectPath, q: ProjectPath, r: ProjectPath) {
    && IsOther(p) && IsOther(q) && IsOther(r)
    && p.elements[0] == q.elements[0] && p != q && r.elements[0] != p.elements[0]
  }

  lemma LessIsPartialOrder(p: ProjectPath, q: ProjectPath, r: ProjectPath)
    ensures !Less(p, p)
    ensures Less(p, q) && Less(q, r) ==> Less(p, r)
  {
    ElementsTrichotomy(p.elements, p.elements);
    if ElementsLess(p.elements, q.elements) && ElementsLess(q.elements, r.elements) {
      ElementsTransitive(p.elements, q.elements, r.elements);
    }
  }

  /** Which of two paths comes first: the empty path, then org, then pvt, then the others; within a
      namespace the first element that differs decides, and a root comes before what is below it. */
  lemma NamespacesInOrder(p: ProjectPath, q: ProjectPath)
    ensures p.elements == [] && q.elements != [] ==> Less(p, q)
    ensures p.elements != [] && q.elements != [] && p.elements[0] == "org" && q.elements[0] != "org" ==> Less(p, q)
    ensures p.elements != [] && IsOther(q) && p.elements[0] == "pvt" ==> Less(p, q)
    ensures p.elements != [] && IsRootOf(p, q) ==> Less(p, q)
  {
    if p.elements != [] && IsRootOf(p, q) {
      RootIsLess(p.elements, q.elements);
    }
  }

  lemma {:induction false} RootIsLess(a: seq<string>, b: seq<string>)
    requires |a| < |b| && a == b[..|a|]
    ensures ElementsLess(a, b)
  {
    if a != [] {
      RootIsLess(a[1..], b[1..]);
    }
  }

  lemma FirstDifferenceDecides(root: seq<string>, x: string, y: string, a: seq<string>, b: seq<string>)
    requires root != [] && LexLess(x, y)
    ensures Less(ProjectPath(root + [x] + a), ProjectPath(root + [y] + b))
  {
    ElementsLessAt(root, x, y, a, b);
  }

  lemma {:induction false} ElementsLessAt(root: seq<string>, x: string, y: string, a: seq<string>, b: seq<string>)
    requires LexLess(x, y)
    ensures ElementsLess(root + [x] + a, root + [y] + b)
  {
    if root != [] {
      assert (root + [x] + a)[1..] == root[1..] + [x] + a && (root + [y] + b)[1..] == root[1..] + [y] + b;
      ElementsLessAt(root[1..], x, y, a, b);
    }
  }

  /** Only equal paths and paths of two different other namespaces tie. */
  lemma TiesAre(p: ProjectPath, q: ProjectPath)
    ensures Ties(p, q) <==> p == q || (IsOther(p) && IsOther(q) && p.elements[0] != q.elements[0])
  {
    ElementsTrichotomy(p.elements, q.elements);
  }

  /** The order is a strict weak order on a set of paths exactly when no namespace but org and
      pvt has two paths in it while another such namespace has one. */
  lemma CanSortIff(s: set<ProjectPath>)
    ensures CanSort(s) <==> forall p, q, r | p in s && q in s && r in s :: !Mixes(p, q, r)
  {
    forall p, q
      ensures Ties(p, q) <==> p == q || (IsOther(p) && IsOther(q) && p.elements[0] != q.elements[0])
    {
      TiesAre(p, q);
    }
    if p, q, r :| p in s && q in s && r in s && Mixes(p, q, r) {
      assert Ties(p, r) && Ties(r, q) && !Ties(p, q);
    } else if p, q, r :| p in s && q in s && r in s && Ties(p, q) && Ties(q, r) && !Ties(p, r) {
      assert Mixes(p, r, q);
    }
  }
}
