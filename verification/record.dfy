/** The document as a collection of resources, independent of any
    filesystem: which (component, kind, name, contents) leaves it holds,
    whether its shape is valid, and the first shape error a validating
    reader meets. The walk in main.go is proved against these definitions. */
module Record {
  import opened Results
  import opened Values
  import opened Paths
  import Disk

  /** One resource: the unit the walk writes to its own file. */
  datatype Leaf = Leaf(component: string, kind: string, name: string, contents: Value) {
    function PathUnder(root: Path): Path {
      LeafPath(root, component, kind, name)
    }
  }

  /** The decoded record: component name to component value. */
  type Document = Entries

  // ----- Membership of a leaf in the three levels of the document -----

  predicate InNames(names: Entries, l: Leaf) {
    exists m :: 0 <= m < |names| && names[m] == (l.name, l.contents)
  }

  predicate InKinds(kinds: Entries, l: Leaf) {
    exists j :: 0 <= j < |kinds| && kinds[j].0 == l.kind && kinds[j].1.Mapping?
                && InNames(kinds[j].1.entries, l)
  }

  predicate InDocument(doc: Document, l: Leaf) {
    exists i :: 0 <= i < |doc| && doc[i].0 == l.component && doc[i].1.Mapping?
                && InKinds(doc[i].1.entries, l)
  }

  // ----- The leaves, in the order the walk visits them -----

  function NameLeaves(comp: string, kind: string, names: Entries): (r: seq<Leaf>)
    ensures |r| == |names|
    ensures forall m :: 0 <= m < |names| ==> r[m] == Leaf(comp, kind, names[m].0, names[m].1)
    ensures forall l :: l in r <==> l.component == comp && l.kind == kind && InNames(names, l)
  {
    if |names| == 0 then []
    else
      var r := [Leaf(comp, kind, names[0].0, names[0].1)] + NameLeaves(comp, kind, names[1..]);
      assert forall m :: 0 < m < |names| ==> names[m] == names[1..][m - 1];
      assert forall l: Leaf :: InNames(names, l) && l.component == comp && l.kind == kind ==> l in r by {
        forall l: Leaf | InNames(names, l) && l.component == comp && l.kind == kind ensures l in r {
          var m :| 0 <= m < |names| && names[m] == (l.name, l.contents);
          assert r[m] == l;
        }
      }
      r
  }

  /** The resources of one component whose kinds are mappings. */
  function KindLeaves(comp: string, kinds: Entries): (r: seq<Leaf>)
    ensures forall l :: l in r <==> l.component == comp && InKinds(kinds, l)
  {
    if |kinds| == 0 then []
    else
      var first := match kinds[0].1
        case Mapping(names) => NameLeaves(comp, kinds[0].0, names)
        case _ => [];
      var rest := KindLeaves(comp, kinds[1..]);
      assert forall l: Leaf :: InKinds(kinds, l) <==> InKinds(kinds[..1], l) || InKinds(kinds[1..], l) by {
        forall l | InKinds(kinds, l) ensures InKinds(kinds[..1], l) || InKinds(kinds[1..], l) {
          var j :| 0 <= j < |kinds| && kinds[j].0 == l.kind && kinds[j].1.Mapping? && InNames(kinds[j].1.entries, l);
          if j > 0 { assert kinds[1..][j - 1] == kinds[j]; } else { assert kinds[..1][0] == kinds[0]; }
        }
        forall l | InKinds(kinds[1..], l) ensures InKinds(kinds, l) {
          var j :| 0 <= j < |kinds[1..]| && kinds[1..][j].0 == l.kind && kinds[1..][j].1.Mapping? && InNames(kinds[1..][j].1.entries, l);
          assert kinds[j + 1] == kinds[1..][j];
        }
        forall l | InKinds(kinds[..1], l) ensures InKinds(kinds, l) {
          assert kinds[..1][0] == kinds[0];
        }
      }
      assert forall l: Leaf :: l in first <==> l.component == comp && InKinds(kinds[..1], l) by {
        forall l: Leaf ensures l in first <==> l.component == comp && InKinds(kinds[..1], l) {
          assert kinds[..1][0] == kinds[0];
        }
      }
      first + rest
  }

  /** Every resource of the document, component by component. */
  function Leaves(doc: Document): (r: seq<Leaf>)
    ensures forall l :: l in r <==> InDocument(doc, l)
  {
    if |doc| == 0 then []
    else
      var first := match doc[0].1
        case Mapping(kinds) => KindLeaves(doc[0].0, kinds)
        case _ => [];
      var rest := Leaves(doc[1..]);
      assert forall l: Leaf :: l in first <==> InDocument(doc[..1], l) by {
        forall l: Leaf ensures l in first <==> InDocument(doc[..1], l) {
          assert doc[..1][0] == doc[0];
        }
      }
      assert forall l: Leaf :: InDocument(doc, l) <==> InDocument(doc[..1], l) || InDocument(doc[1..], l) by {
        forall l | InDocument(doc, l) ensures InDocument(doc[..1], l) || InDocument(doc[1..], l) {
          var i :| 0 <= i < |doc| && doc[i].0 == l.component && doc[i].1.Mapping? && InKinds(doc[i].1.entries, l);
          if i > 0 { assert doc[1..][i - 1] == doc[i]; } else { assert doc[..1][0] == doc[0]; }
        }
        forall l | InDocument(doc[1..], l) ensures InDocument(doc, l) {
          var i :| 0 <= i < |doc[1..]| && doc[1..][i].0 == l.component && doc[1..][i].1.Mapping? && InKinds(doc[1..][i].1.entries, l);
          assert doc[i + 1] == doc[1..][i];
        }
        forall l | InDocument(doc[..1], l) ensures InDocument(doc, l) {
          assert doc[..1][0] == doc[0];
        }
      }
      first + rest
  }

  // ----- Shape -----

  /** Every kind of a component is a string-keyed mapping. */
  predicate KindsAreMappings(kinds: Entries) {
    forall j :: 0 <= j < |kinds| ==> kinds[j].1.Mapping?
  }

  /** The three-level shape the walk insists on. */
  predicate WellShaped(doc: Document) {
    forall i :: 0 <= i < |doc| ==> doc[i].1.Mapping? && KindsAreMappings(doc[i].1.entries)
  }

  /** `e` is the first shape error inside one component entry. */
  predicate FirstErrorIn(entry: (string, Value), e: Error) {
    match e
    case InvalidComponent(c) => entry.0 == c && !entry.1.Mapping?
    case InvalidKind(c, k) =>
      entry.0 == c && entry.1.Mapping? &&
      exists j :: 0 <= j < |entry.1.entries| && KindsAreMappings(entry.1.entries[..j])
                  && entry.1.entries[j].0 == k && !entry.1.entries[j].1.Mapping?
    case _ => false
  }

  /** A validating reader of one component's kinds: the first non-mapping
      kind, or all its resources. */
  function DecomposeKinds(comp: string, kinds: Entries): (r: Result<seq<Leaf>>)
    ensures r.Ok? <==> KindsAreMappings(kinds)
    ensures r.Ok? ==> r.value == KindLeaves(comp, kinds)
    ensures r.Err? ==> exists j :: 0 <= j < |kinds| && KindsAreMappings(kinds[..j])
                        && r.error == InvalidKind(comp, kinds[j].0) && !kinds[j].1.Mapping?
  {
    if |kinds| == 0 then Ok([])
    else match kinds[0].1
      case Mapping(names) =>
        (match DecomposeKinds(comp, kinds[1..])
         case Ok(rest) => Ok(NameLeaves(comp, kinds[0].0, names) + rest)
         case Err(e) =>
           assert exists j :: 0 <= j < |kinds| && KindsAreMappings(kinds[..j])
                              && e == InvalidKind(comp, kinds[j].0) && !kinds[j].1.Mapping? by {
             var j :| 0 <= j < |kinds[1..]| && KindsAreMappings(kinds[1..][..j])
                      && e == InvalidKind(comp, kinds[1..][j].0) && !kinds[1..][j].1.Mapping?;
             assert kinds[..j + 1] == [kinds[0]] + kinds[1..][..j];
             assert kinds[j + 1] == kinds[1..][j];
           }
           Err(e))
      case _ =>
        assert kinds[..0] == [];
        Err(InvalidKind(comp, kinds[0].0))
  }

  /** A validate-first reader: fail at the first
      shape error in iteration order, otherwise yield every resource. */
  function Decompose(doc: Document): (r: Result<seq<Leaf>>)
    ensures r.Ok? <==> WellShaped(doc)
    ensures r.Ok? ==> r.value == Leaves(doc)
    ensures r.Err? ==> exists i :: 0 <= i < |doc| && WellShaped(doc[..i]) && FirstErrorIn(doc[i], r.error)
  {
    if |doc| == 0 then Ok([])
    else
      WellShapedCons(doc);
      match doc[0].1
      case Mapping(kinds) =>
        (match DecomposeKinds(doc[0].0, kinds)
         case Err(e) =>
           FirstErrorAtHead(doc, e);
           Err(e)
         case Ok(first) =>
           match Decompose(doc[1..])
           case Ok(rest) => Ok(first + rest)
           case Err(e) =>
             FirstErrorInTail(doc, e);
             Err(e))
      case _ =>
        FirstErrorAtHead(doc, InvalidComponent(doc[0].0));
        Err(InvalidComponent(doc[0].0))
  }

  lemma FirstErrorAtHead(doc: Document, e: Error)
    requires |doc| > 0 && FirstErrorIn(doc[0], e)
    ensures exists i :: 0 <= i < |doc| && WellShaped(doc[..i]) && FirstErrorIn(doc[i], e)
  {
    assert doc[..0] == [];
  }

  lemma FirstErrorInTail(doc: Document, e: Error)
    requires |doc| > 0 && doc[0].1.Mapping? && KindsAreMappings(doc[0].1.entries)
    requires exists i :: 0 <= i < |doc[1..]| && WellShaped(doc[1..][..i]) && FirstErrorIn(doc[1..][i], e)
    ensures exists i :: 0 <= i < |doc| && WellShaped(doc[..i]) && FirstErrorIn(doc[i], e)
  {
    var i :| 0 <= i < |doc[1..]| && WellShaped(doc[1..][..i]) && FirstErrorIn(doc[1..][i], e);
    assert doc[..i + 1] == [doc[0]] + doc[1..][..i];
    WellShapedCons(doc[..i + 1]);
    assert doc[i + 1] == doc[1..][i];
  }

  lemma WellShapedCons(doc: Document)
    requires |doc| > 0
    ensures WellShaped(doc) <==> doc[0].1.Mapping? && KindsAreMappings(doc[0].1.entries) && WellShaped(doc[1..])
  {
    if doc[0].1.Mapping? && KindsAreMappings(doc[0].1.entries) && WellShaped(doc[1..]) {
      forall i | 0 <= i < |doc| ensures doc[i].1.Mapping? && KindsAreMappings(doc[i].1.entries) {
        if i > 0 { assert doc[i] == doc[1..][i - 1]; }
      }
    }
    if WellShaped(doc) {
      forall i | 0 <= i < |doc[1..]| ensures doc[1..][i].1.Mapping? && KindsAreMappings(doc[1..][i].1.entries) {
        assert doc[1..][i] == doc[i + 1];
      }
    }
  }

  // ----- What a full run writes -----

  /** The (path, contents) writes for a sequence of leaves, in order. */
  function LeafWrites(root: Path, leaves: seq<Leaf>): seq<(Path, Value)> {
    seq(|leaves|, i requires 0 <= i < |leaves| => (leaves[i].PathUnder(root), leaves[i].contents))
  }

  function PathsOf(root: Path, leaves: seq<Leaf>): set<Path> {
    set l | l in leaves :: l.PathUnder(root)
  }

  /** The directories of the mapping-valued components. */
  function ComponentDirs(root: Path, doc: Document): set<Path> {
    set i | 0 <= i < |doc| && doc[i].1.Mapping? :: ComponentDir(root, doc[i].0)
  }

  // ----- One step of each loop -----

  lemma NameLeavesCons(root: Path, comp: string, kind: string, names: Entries)
    requires |names| > 0
    ensures NameLeaves(comp, kind, names)
         == [Leaf(comp, kind, names[0].0, names[0].1)] + NameLeaves(comp, kind, names[1..])
    ensures PathsOf(root, NameLeaves(comp, kind, names))
         == {LeafPath(root, comp, kind, names[0].0)} + PathsOf(root, NameLeaves(comp, kind, names[1..]))
  {
    var leaf := Leaf(comp, kind, names[0].0, names[0].1);
    PathsOfAppend(root, [leaf], NameLeaves(comp, kind, names[1..]));
    assert PathsOf(root, [leaf]) == {leaf.PathUnder(root)};
  }

  lemma KindLeavesCons(root: Path, comp: string, kinds: Entries)
    requires |kinds| > 0 && kinds[0].1.Mapping?
    ensures KindLeaves(comp, kinds)
         == NameLeaves(comp, kinds[0].0, kinds[0].1.entries) + KindLeaves(comp, kinds[1..])
    ensures PathsOf(root, KindLeaves(comp, kinds))
         == PathsOf(root, NameLeaves(comp, kinds[0].0, kinds[0].1.entries)) + PathsOf(root, KindLeaves(comp, kinds[1..]))
  {
    PathsOfAppend(root, NameLeaves(comp, kinds[0].0, kinds[0].1.entries), KindLeaves(comp, kinds[1..]));
  }

  lemma LeavesCons(root: Path, doc: Document)
    requires |doc| > 0 && doc[0].1.Mapping?
    ensures Leaves(doc) == KindLeaves(doc[0].0, doc[0].1.entries) + Leaves(doc[1..])
    ensures PathsOf(root, Leaves(doc))
         == PathsOf(root, KindLeaves(doc[0].0, doc[0].1.entries)) + PathsOf(root, Leaves(doc[1..]))
    ensures ComponentDirs(root, doc) == {ComponentDir(root, doc[0].0)} + ComponentDirs(root, doc[1..])
  {
    PathsOfAppend(root, KindLeaves(doc[0].0, doc[0].1.entries), Leaves(doc[1..]));
    var dir := ComponentDir(root, doc[0].0);
    forall p | p in ComponentDirs(root, doc) ensures p in {dir} + ComponentDirs(root, doc[1..]) {
      var i :| 0 <= i < |doc| && doc[i].1.Mapping? && p == ComponentDir(root, doc[i].0);
      if i > 0 { assert doc[1..][i - 1] == doc[i]; }
    }
    forall p | p in ComponentDirs(root, doc[1..]) ensures p in ComponentDirs(root, doc) {
      var i :| 0 <= i < |doc[1..]| && doc[1..][i].1.Mapping? && p == ComponentDir(root, doc[1..][i].0);
      assert doc[i + 1] == doc[1..][i];
    }
  }

  lemma KindsAreMappingsCons(kinds: Entries)
    requires |kinds| > 0
    ensures KindsAreMappings(kinds) <==> kinds[0].1.Mapping? && KindsAreMappings(kinds[1..])
  {
    if kinds[0].1.Mapping? && KindsAreMappings(kinds[1..]) {
      forall j | 0 <= j < |kinds| ensures kinds[j].1.Mapping? {
        if j > 0 { assert kinds[j] == kinds[1..][j - 1]; }
      }
    }
    if KindsAreMappings(kinds) {
      forall j | 0 <= j < |kinds[1..]| ensures kinds[1..][j].1.Mapping? {
        assert kinds[1..][j] == kinds[j + 1];
      }
    }
  }

  lemma PathsOfAppend(root: Path, a: seq<Leaf>, b: seq<Leaf>)
    ensures PathsOf(root, a + b) == PathsOf(root, a) + PathsOf(root, b)
  {
    assert forall l :: l in a + b <==> l in a || l in b;
  }

  lemma LeafWritesAppend(root: Path, a: seq<Leaf>, b: seq<Leaf>)
    ensures LeafWrites(root, a + b) == LeafWrites(root, a) + LeafWrites(root, b)
  {
  }

  /** Write `i` of some leaves stores leaf `i`'s contents at its path. */
  lemma LeafWritesAt(root: Path, leaves: seq<Leaf>)
    ensures |LeafWrites(root, leaves)| == |leaves|
    ensures forall i :: 0 <= i < |leaves| ==>
              LeafWrites(root, leaves)[i] == (leaves[i].PathUnder(root), leaves[i].contents)
  {
  }

  /** The paths the writes of some leaves touch are the leaves' paths. */
  lemma WrittenPathsOfLeaves(root: Path, leaves: seq<Leaf>)
    ensures Disk.WrittenPaths(LeafWrites(root, leaves)) == PathsOf(root, leaves)
  {
    var ws := LeafWrites(root, leaves);
    forall p | p in PathsOf(root, leaves) ensures p in Disk.WrittenPaths(ws) {
      var l :| l in leaves && l.PathUnder(root) == p;
      var i :| 0 <= i < |leaves| && leaves[i] == l;
      assert ws[i].0 == p;
    }
  }

  // ----- When every resource gets a file of its own -----

  /** No two leaves share an output file. */
  predicate PathsDistinct(root: Path, leaves: seq<Leaf>) {
    forall i, j :: 0 <= i < j < |leaves| ==> leaves[i].PathUnder(root) != leaves[j].PathUnder(root)
  }

  /** No resource name under these kinds holds a '.'. */
  predicate PlainNames(kinds: Entries) {
    forall j, m :: 0 <= j < |kinds| && kinds[j].1.Mapping? && 0 <= m < |kinds[j].1.entries| ==>
      '.' !in kinds[j].1.entries[m].0
  }

  /** No kind holds a '.'. */
  predicate PlainKinds(kinds: Entries) {
    forall j :: 0 <= j < |kinds| ==> '.' !in kinds[j].0
  }

  /** The kinds of one component: distinct keys at both levels (Go maps),
      and either the resource names or the kinds free of '.'. */
  predicate SafeKinds(kinds: Entries) {
    KeysDistinct(kinds)
    && (forall j :: 0 <= j < |kinds| && kinds[j].1.Mapping? ==> KeysDistinct(kinds[j].1.entries))
    && (PlainNames(kinds) || PlainKinds(kinds))
  }

  /** A document whose every resource has its own file: component names
      differ even after lower-casing and hold no '/', kinds and resource
      names are distinct, and in each component either the resource names or
      the kinds hold no '.'. */
  predicate SafeDocument(doc: Document) {
    (forall i, j :: 0 <= i < j < |doc| ==> Lower(doc[i].0) != Lower(doc[j].0))
    && forall i :: 0 <= i < |doc| ==>
         '/' !in doc[i].0 && (doc[i].1.Mapping? ==> SafeKinds(doc[i].1.entries))
  }

  lemma PathsDistinctAppend(root: Path, a: seq<Leaf>, b: seq<Leaf>)
    requires PathsDistinct(root, a) && PathsDistinct(root, b)
    requires PathsOf(root, a) !! PathsOf(root, b)
    ensures PathsDistinct(root, a + b)
  {
    var ab := a + b;
    forall i, j | 0 <= i < j < |ab| ensures ab[i].PathUnder(root) != ab[j].PathUnder(root) {
      if j < |a| {
        assert ab[i] == a[i] && ab[j] == a[j];
      } else if i >= |a| {
        assert ab[i] == b[i - |a|] && ab[j] == b[j - |a|];
      } else {
        assert ab[i] == a[i] && ab[j] == b[j - |a|];
        assert ab[i].PathUnder(root) in PathsOf(root, a);
        assert ab[j].PathUnder(root) in PathsOf(root, b);
      }
    }
  }

  lemma NameLeavesDistinct(root: Path, comp: string, kind: string, names: Entries)
    requires KeysDistinct(names)
    ensures PathsDistinct(root, NameLeaves(comp, kind, names))
  {
    var ls := NameLeaves(comp, kind, names);
    forall i, j | 0 <= i < j < |ls| ensures ls[i].PathUnder(root) != ls[j].PathUnder(root) {
      LeafPathNameVerbatim(root, comp, kind, names[i].0, names[j].0);
    }
  }

  lemma {:induction false} KindLeavesDistinct(root: Path, comp: string, kinds: Entries)
    requires '/' !in comp
    requires SafeKinds(kinds)
    ensures PathsDistinct(root, KindLeaves(comp, kinds))
    decreases |kinds|
  {
    if |kinds| > 0 {
      assert SafeKinds(kinds[1..]) by {
        forall j | 0 <= j < |kinds[1..]| ensures kinds[1..][j] == kinds[j + 1] { }
      }
      KindLeavesDistinct(root, comp, kinds[1..]);
      match kinds[0].1
      case Mapping(names) =>
        var first := NameLeaves(comp, kinds[0].0, names);
        var rest := KindLeaves(comp, kinds[1..]);
        NameLeavesDistinct(root, comp, kinds[0].0, names);
        KindsApart(root, comp, kinds);
        PathsDistinctAppend(root, first, rest);
      case _ =>
        assert KindLeaves(comp, kinds) == KindLeaves(comp, kinds[1..]);
    }
  }

  lemma KindsApart(root: Path, comp: string, kinds: Entries)
    requires '/' !in comp
    requires SafeKinds(kinds) && |kinds| > 0 && kinds[0].1.Mapping?
    ensures PathsOf(root, NameLeaves(comp, kinds[0].0, kinds[0].1.entries)) !! PathsOf(root, KindLeaves(comp, kinds[1..]))
  {
    var names := kinds[0].1.entries;
    forall l1, l2 | l1 in NameLeaves(comp, kinds[0].0, names) && l2 in KindLeaves(comp, kinds[1..])
      ensures l1.PathUnder(root) != l2.PathUnder(root)
    {
      var m :| 0 <= m < |names| && names[m] == (l1.name, l1.contents);
      var j :| 0 <= j < |kinds[1..]| && kinds[1..][j].0 == l2.kind && kinds[1..][j].1.Mapping?
               && InNames(kinds[1..][j].1.entries, l2);
      assert kinds[1..][j] == kinds[j + 1];
      var m2 :| 0 <= m2 < |kinds[j + 1].1.entries| && kinds[j + 1].1.entries[m2] == (l2.name, l2.contents);
      if l1.PathUnder(root) == l2.PathUnder(root) {
        if PlainNames(kinds) {
          assert '.' !in kinds[0].1.entries[m].0 && '.' !in kinds[j + 1].1.entries[m2].0;
          LeafPathInjective(root, comp, l1.kind, l1.name, comp, l2.kind, l2.name);
        } else {
          assert '.' !in kinds[0].0 && '.' !in kinds[j + 1].0;
          LeafPathInjectivePlainKinds(root, comp, l1.kind, l1.name, comp, l2.kind, l2.name);
        }
      }
    }
  }

  /** A leaf of a safe document has a '/'-free component that is one of
      the document's keys. */
  lemma SafeLeaf(doc: Document, l: Leaf) returns (i: nat)
    requires SafeDocument(doc) && InDocument(doc, l)
    ensures i < |doc| && doc[i].0 == l.component
    ensures '/' !in l.component
  {
    i :| 0 <= i < |doc| && doc[i].0 == l.component && doc[i].1.Mapping? && InKinds(doc[i].1.entries, l);
  }

  lemma ComponentsApart(root: Path, doc: Document)
    requires SafeDocument(doc) && |doc| > 0 && doc[0].1.Mapping?
    ensures PathsOf(root, KindLeaves(doc[0].0, doc[0].1.entries)) !! PathsOf(root, Leaves(doc[1..]))
  {
    var first := KindLeaves(doc[0].0, doc[0].1.entries);
    var rest := Leaves(doc[1..]);
    assert SafeDocument(doc[1..]) by {
      forall i | 0 <= i < |doc[1..]| ensures doc[1..][i] == doc[i + 1] { }
    }
    forall l1, l2 | l1 in first && l2 in rest ensures l1.PathUnder(root) != l2.PathUnder(root) {
      assert InDocument(doc[..1], l1) by { assert doc[..1][0] == doc[0]; }
      assert InDocument(doc, l1) by { assert doc[..1][0] == doc[0]; }
      var _ := SafeLeaf(doc, l1);
      var i := SafeLeaf(doc[1..], l2);
      assert doc[1..][i] == doc[i + 1];
      if l1.PathUnder(root) == l2.PathUnder(root) {
        LeafPathSplits(root, l1.component, l1.kind, l1.name, l2.component, l2.kind, l2.name);
      }
    }
  }

  /** In a safe document no two resources share an output file. */
  lemma {:induction false} LeavesDistinct(root: Path, doc: Document)
    requires SafeDocument(doc)
    ensures PathsDistinct(root, Leaves(doc))
    decreases |doc|
  {
    if |doc| > 0 {
      assert SafeDocument(doc[1..]) by {
        forall i | 0 <= i < |doc[1..]| ensures doc[1..][i] == doc[i + 1] { }
      }
      LeavesDistinct(root, doc[1..]);
      match doc[0].1
      case Mapping(kinds) =>
        KindLeavesDistinct(root, doc[0].0, kinds);
        ComponentsApart(root, doc);
        PathsDistinctAppend(root, KindLeaves(doc[0].0, kinds), Leaves(doc[1..]));
      case _ =>
        assert Leaves(doc) == Leaves(doc[1..]);
    }
  }

  // ----- Documents that differ only in resource contents -----

  predicate SameKeys(n1: Entries, n2: Entries) {
    |n1| == |n2| && forall m :: 0 <= m < |n1| ==> n1[m].0 == n2[m].0
  }

  predicate SameKindShape(k1: Entries, k2: Entries) {
    |k1| == |k2|
    && forall j :: 0 <= j < |k1| ==>
         k1[j].0 == k2[j].0 && k1[j].1.Mapping? == k2[j].1.Mapping?
         && (k1[j].1.Mapping? && k2[j].1.Mapping? ==> SameKeys(k1[j].1.entries, k2[j].1.entries))
  }

  /** The same components, kinds and resource names in the same order, with
      the same shape; only the resource contents may differ. */
  predicate SameShape(d1: Document, d2: Document) {
    |d1| == |d2|
    && forall i :: 0 <= i < |d1| ==>
         d1[i].0 == d2[i].0 && d1[i].1.Mapping? == d2[i].1.Mapping?
         && (d1[i].1.Mapping? && d2[i].1.Mapping? ==> SameKindShape(d1[i].1.entries, d2[i].1.entries))
  }
}
