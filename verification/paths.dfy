/** How an output path is derived: `filepath.Join(outputDir,
    strings.ToLower(comp), name + "." + kind + ".yaml")`. Lower-casing is the
    ASCII case map and Join is plain "/" concatenation; neither library's
    full behaviour is modelled. */
module Paths {

  type Path = string

  predicate IsUpper(c: char) {
    'A' <= c <= 'Z'
  }

  function LowerChar(c: char): char {
    if IsUpper(c) then (c as int + 32) as char else c
  }

  /** `strings.ToLower`, restricted to ASCII letters. */
  function Lower(s: string): (r: string)
    ensures |r| == |s|
    ensures forall i :: 0 <= i < |r| ==> !IsUpper(r[i])
    ensures forall i :: 0 <= i < |s| && !IsUpper(s[i]) ==> r[i] == s[i]
    ensures forall i :: 0 <= i < |s| && IsUpper(s[i]) ==> r[i] as int == s[i] as int + 32
  {
    seq(|s|, i requires 0 <= i < |s| => LowerChar(s[i]))
  }

  /** `filepath.Join` of two elements, without path cleaning. */
  function Join(dir: Path, elem: string): Path {
    dir + "/" + elem
  }

  /** The directory created for a component (main.go:157). */
  function ComponentDir(root: Path, component: string): Path {
    Join(root, Lower(component))
  }

  /** The file name of one resource: name, then kind, then the extension. */
  function ResourceFileName(kind: string, name: string): string {
    name + "." + kind + ".yaml"
  }

  /** The file one resource is written to (main.go:169). */
  function LeafPath(root: Path, component: string, kind: string, name: string): Path {
    Join(ComponentDir(root, component), ResourceFileName(kind, name))
  }

  /** Lower-casing never creates or removes a '/' or a '.'. */
  lemma LowerKeepsSeparators(s: string)
    ensures ('/' in Lower(s)) <==> ('/' in s)
    ensures ('.' in Lower(s)) <==> ('.' in s)
  {
    var r := Lower(s);
    if '/' in r {
      var i :| 0 <= i < |r| && r[i] == '/';
      assert s[i] == '/';
    }
    if '/' in s {
      var i :| 0 <= i < |s| && s[i] == '/';
      assert r[i] == '/';
    }
    if '.' in r {
      var i :| 0 <= i < |r| && r[i] == '.';
      assert s[i] == '.';
    }
    if '.' in s {
      var i :| 0 <= i < |s| && s[i] == '.';
      assert r[i] == '.';
    }
  }

  /** Splitting at the first occurrence of a separator is unambiguous. */
  lemma SplitAtFirst(a: string, b: string, c: string, e: string, d: char)
    requires a + [d] + b == c + [d] + e
    requires d !in a && d !in c
    ensures a == c && b == e
  {
    var s := a + [d] + b;
    assert s[|a|] == d;
    assert s == c + [d] + e && s[|c|] == d;
    assert forall i :: 0 <= i < |a| ==> s[i] == a[i] != d;
    assert forall i :: 0 <= i < |c| ==> s[i] == c[i] != d;
    assert |a| == |c|;
    assert a == s[..|a|] == c;
    assert b == s[|a| + 1..] == e;
  }

  /** Equal paths under one root and directory agree on the file name part. */
  lemma SameDirSameFile(root: Path, dir: string, f1: string, f2: string)
    requires Join(Join(root, dir), f1) == Join(Join(root, dir), f2)
    ensures f1 == f2
  {
    var p := root + "/" + dir + "/";
    assert Join(Join(root, dir), f1) == p + f1;
    assert Join(Join(root, dir), f2) == p + f2;
    assert f1 == (p + f1)[|p|..];
  }

  /** Two components share a file for the same resource exactly when they
      are equal up to case: only the component segment is lower-cased. */
  lemma LeafPathComponentCaseInsensitive(root: Path, c1: string, c2: string, kind: string, name: string)
    ensures LeafPath(root, c1, kind, name) == LeafPath(root, c2, kind, name)
        <==> Lower(c1) == Lower(c2)
  {
    var f := ResourceFileName(kind, name);
    var l1, l2 := Lower(c1), Lower(c2);
    if LeafPath(root, c1, kind, name) == LeafPath(root, c2, kind, name) {
      var q := "/" + f;
      assert LeafPath(root, c1, kind, name) == root + "/" + l1 + q;
      assert LeafPath(root, c2, kind, name) == root + "/" + l2 + q;
      assert |l1| == |l2|;
      var s := root + "/" + l1 + q;
      assert l1 == s[|root| + 1..|root| + 1 + |l1|] == l2;
    }
  }

  /** The kind is used verbatim: two kinds give the same file only when equal. */
  lemma LeafPathKindVerbatim(root: Path, c: string, k1: string, k2: string, name: string)
    ensures LeafPath(root, c, k1, name) == LeafPath(root, c, k2, name) <==> k1 == k2
  {
    if LeafPath(root, c, k1, name) == LeafPath(root, c, k2, name) {
      SameDirSameFile(root, Lower(c), ResourceFileName(k1, name), ResourceFileName(k2, name));
      var f1 := ResourceFileName(k1, name);
      assert f1 == (name + ".") + k1 + ".yaml";
      assert ResourceFileName(k2, name) == (name + ".") + k2 + ".yaml";
      assert k1 == f1[|name| + 1..|name| + 1 + |k1|] == k2;
    }
  }

  /** The name is used verbatim: two names give the same file only when equal. */
  lemma LeafPathNameVerbatim(root: Path, c: string, kind: string, n1: string, n2: string)
    ensures LeafPath(root, c, kind, n1) == LeafPath(root, c, kind, n2) <==> n1 == n2
  {
    if LeafPath(root, c, kind, n1) == LeafPath(root, c, kind, n2) {
      SameDirSameFile(root, Lower(c), ResourceFileName(kind, n1), ResourceFileName(kind, n2));
      var f1 := ResourceFileName(kind, n1);
      assert f1 == n1 + ("." + kind + ".yaml");
      assert ResourceFileName(kind, n2) == n2 + ("." + kind + ".yaml");
      assert n1 == f1[..|n1|] == n2;
    }
  }

  /** Splitting at the last occurrence of a separator is unambiguous. */
  lemma SplitAtLast(a: string, b: string, c: string, e: string, d: char)
    requires a + [d] + b == c + [d] + e
    requires d !in b && d !in e
    ensures a == c && b == e
  {
    var s := a + [d] + b;
    assert s[|a|] == d;
    assert s == c + [d] + e && s[|c|] == d;
    assert forall i :: |a| < i < |s| ==> s[i] == b[i - |a| - 1] != d;
    assert forall i :: |c| < i < |s| ==> s[i] == e[i - |c| - 1] != d;
    assert |a| == |c|;
    assert a == s[..|a|] == c;
    assert b == s[|a| + 1..] == e;
  }

  /** With no '/' in component names, the path determines the lower-cased
      component and the file name. */
  lemma LeafPathSplits(root: Path, c1: string, k1: string, n1: string,
                       c2: string, k2: string, n2: string)
    requires '/' !in c1 && '/' !in c2
    requires LeafPath(root, c1, k1, n1) == LeafPath(root, c2, k2, n2)
    ensures Lower(c1) == Lower(c2) && ResourceFileName(k1, n1) == ResourceFileName(k2, n2)
  {
    LowerKeepsSeparators(c1);
    LowerKeepsSeparators(c2);
    var l1, l2 := Lower(c1), Lower(c2);
    var f1, f2 := ResourceFileName(k1, n1), ResourceFileName(k2, n2);
    var p := root + "/";
    var s := LeafPath(root, c1, k1, n1);
    assert s == p + (l1 + ['/'] + f1);
    assert s == p + (l2 + ['/'] + f2);
    assert l1 + ['/'] + f1 == s[|p|..] == l2 + ['/'] + f2;
    SplitAtFirst(l1, f1, l2, f2, '/');
  }

  /** With no '/' in component names and no '.' in resource names, the path
      determines the lower-cased component, the kind and the name. */
  lemma LeafPathInjective(root: Path, c1: string, k1: string, n1: string,
                          c2: string, k2: string, n2: string)
    requires '/' !in c1 && '/' !in c2
    requires '.' !in n1 && '.' !in n2
    requires LeafPath(root, c1, k1, n1) == LeafPath(root, c2, k2, n2)
    ensures Lower(c1) == Lower(c2) && k1 == k2 && n1 == n2
  {
    LeafPathSplits(root, c1, k1, n1, c2, k2, n2);
    var f1, f2 := ResourceFileName(k1, n1), ResourceFileName(k2, n2);
    assert f1 == n1 + ['.'] + (k1 + ".yaml");
    assert f2 == n2 + ['.'] + (k2 + ".yaml");
    SplitAtFirst(n1, k1 + ".yaml", n2, k2 + ".yaml", '.');
    assert k1 == (k1 + ".yaml")[..|k1|];
    assert |k1| == |k2|;
    assert k2 == (k2 + ".yaml")[..|k2|];
  }

  /** Dotted resource names are harmless when kinds hold no '.': with no
      '/' in component names, the path again determines the lower-cased
      component, the kind and the name. */
  lemma LeafPathInjectivePlainKinds(root: Path, c1: string, k1: string, n1: string,
                                    c2: string, k2: string, n2: string)
    requires '/' !in c1 && '/' !in c2
    requires '.' !in k1 && '.' !in k2
    requires LeafPath(root, c1, k1, n1) == LeafPath(root, c2, k2, n2)
    ensures Lower(c1) == Lower(c2) && k1 == k2 && n1 == n2
  {
    LeafPathSplits(root, c1, k1, n1, c2, k2, n2);
    var f := ResourceFileName(k1, n1);
    var b1, b2 := n1 + ['.'] + k1, n2 + ['.'] + k2;
    assert f == b1 + ".yaml";
    assert f == b2 + ".yaml";
    assert |b1| == |b2|;
    assert b1 == f[..|b1|] == b2;
    SplitAtLast(n1, k1, n2, k2, '.');
  }

  /** Without the '.' restriction the rule is not injective: two different
      (kind, name) pairs of one component land on the same file. */
  lemma DottedNamesCollide(root: Path, c: string)
    ensures LeafPath(root, c, "yaml", "a.b") == LeafPath(root, c, "b.yaml", "a")
    ensures "yaml" != "b.yaml" && "a.b" != "a"
  {
    assert ResourceFileName("yaml", "a.b") == "a.b.yaml.yaml" == ResourceFileName("b.yaml", "a");
  }
}
