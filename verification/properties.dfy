/** What a whole run of the tool promises, stated about `Convert` and
    proved from the walk's contracts, its plan and the reference reader. */
module Properties {
  import opened Results
  import opened Values
  import opened Paths
  import opened Disk
  import opened Record
  import opened Walk
  import opened Plan

  /** A run ends without error exactly when the output directory can be
      created, the record can be read, its shape is valid, and no component
      directory or resource file it needs is refused by the filesystem. */
  lemma ConvertSucceedsIff(root: Path, record: Option<Document>, faults: Faults, fs: FileSystem)
    ensures Convert(root, record, faults, fs).status.Done?
        <==> root !in faults.mkdirFails && record.Some?
             && WellShaped(record.value)
             && ComponentDirs(root, record.value) !! faults.mkdirFails
             && PathsOf(root, Leaves(record.value)) !! faults.writeFails
  {
    if root !in faults.mkdirFails && record.Some? {
      WalkComponentsCompletes(root, record.value, faults, MakeDirAll(fs, root));
    }
  }

  /** After a successful run the output tree holds one file per resource
      and nothing else new: files that were there before and are not a
      resource's path are untouched, and each resource path holds the
      contents of the last resource written to it. */
  lemma ConvertWritesExactlyTheLeaves(root: Path, doc: Document, faults: Faults, fs: FileSystem)
    requires Convert(root, Some(doc), faults, fs).status.Done?
    ensures var r := Convert(root, Some(doc), faults, fs);
            && r.fs.dirs == fs.dirs + {root} + ComponentDirs(root, doc)
            && r.fs.files.Keys == fs.files.Keys + PathsOf(root, Leaves(doc))
            && (forall p :: p in fs.files && p !in PathsOf(root, Leaves(doc)) ==> r.fs.files[p] == fs.files[p])
            && (forall i :: 0 <= i < |Leaves(doc)|
                  && (forall j :: i < j < |Leaves(doc)| ==> Leaves(doc)[j].PathUnder(root) != Leaves(doc)[i].PathUnder(root))
                  ==> Leaves(doc)[i].PathUnder(root) in r.fs.files
                      && r.fs.files[Leaves(doc)[i].PathUnder(root)] == Leaves(doc)[i].contents)
  {
    var r := Convert(root, Some(doc), faults, fs);
    var leaves := Leaves(doc);
    var ws := LeafWrites(root, leaves);
    var files0 := MakeDirAll(fs, root).files;
    WalkComponentsCompletes(root, doc, faults, MakeDirAll(fs, root));
    assert r.fs.files == Stored(files0, ws);
    WrittenPathsOfLeaves(root, leaves);
    LeafWritesAt(root, leaves);
    forall i | 0 <= i < |leaves| && (forall j :: i < j < |leaves| ==> leaves[j].PathUnder(root) != leaves[i].PathUnder(root))
      ensures r.fs.files[leaves[i].PathUnder(root)] == leaves[i].contents
    {
      StoredLastWriteWins(files0, ws, i);
    }
  }

  /** In a document whose names cannot collide, every resource's file
      holds exactly that resource's contents after a successful run. */
  lemma ConvertStoresEveryLeaf(root: Path, doc: Document, faults: Faults, fs: FileSystem)
    requires SafeDocument(doc)
    requires Convert(root, Some(doc), faults, fs).status.Done?
    ensures var files := Convert(root, Some(doc), faults, fs).fs.files;
            forall l :: l in Leaves(doc) ==> l.PathUnder(root) in files && files[l.PathUnder(root)] == l.contents
  {
    var leaves := Leaves(doc);
    var ws := LeafWrites(root, leaves);
    var files0 := MakeDirAll(fs, root).files;
    WalkComponentsCompletes(root, doc, faults, MakeDirAll(fs, root));
    assert Convert(root, Some(doc), faults, fs).fs.files == Stored(files0, ws);
    LeavesDistinct(root, doc);
    forall l | l in leaves
      ensures l.PathUnder(root) in Stored(files0, ws) && Stored(files0, ws)[l.PathUnder(root)] == l.contents
    {
      var i :| 0 <= i < |leaves| && leaves[i] == l;
      StoredLastWriteWins(files0, ws, i);
    }
  }

  /** A shape error reported by a run is the first one a validating reader
      meets: it names a component that is not a mapping, or a kind that is
      not a mapping inside a component that is, and everything before it in
      iteration order is well shaped. */
  lemma ConvertReportsFirstShapeError(root: Path, record: Option<Document>, faults: Faults, fs: FileSystem)
    requires Convert(root, record, faults, fs).status.Fatal?
    requires Convert(root, record, faults, fs).status.error.IsShapeError()
    ensures record.Some?
    ensures Decompose(record.value) == Err(Convert(root, record, faults, fs).status.error)
    ensures exists i :: 0 <= i < |record.value| && WellShaped(record.value[..i])
                        && FirstErrorIn(record.value[i], Convert(root, record, faults, fs).status.error)
  {
  }

  /** On a filesystem that refuses nothing the run reports exactly what the
      validating reader reports; in particular every ill-shaped document is
      a fatal error naming its first bad component or kind. */
  lemma HealthyRunAgreesWithDecompose(root: Path, doc: Document, faults: Faults, fs: FileSystem)
    requires root !in faults.mkdirFails
    requires ComponentDirs(root, doc) !! faults.mkdirFails
    requires PathsOf(root, Leaves(doc)) !! faults.writeFails
    ensures Convert(root, Some(doc), faults, fs).status
         == (if Decompose(doc).Ok? then Done else Fatal(Decompose(doc).error))
  {
    WalkComponentsCompletes(root, doc, faults, MakeDirAll(fs, root));
  }

  /** When a kind turns out not to be a mapping, its component's directory
      has already been created. */
  lemma InvalidKindAfterComponentDir(root: Path, record: Option<Document>, faults: Faults, fs: FileSystem)
    ensures var r := Convert(root, record, faults, fs);
            r.status.Fatal? && r.status.error.InvalidKind? ==>
              ComponentDir(root, r.status.error.component) in r.fs.dirs
  {
  }

  /** Fail-fast, effect by effect: a run performs exactly the planned
      directory creations and writes that precede the first failing one,
      keeps them, and reports that one's error. */
  lemma ConvertFailFast(root: Path, doc: Document, faults: Faults, fs: FileSystem)
    requires root !in faults.mkdirFails
    ensures var steps := PlanComponents(root, doc);
            var k := FirstFailure(steps, faults);
            var r := Convert(root, Some(doc), faults, fs);
            && r.fs == ApplyAll(MakeDirAll(fs, root), steps[..k])
            && (r.status.Done? <==> k == |steps|)
            && (k < |steps| ==> r.status == Fatal(ErrorOf(steps[k])))
  {
    WalkComponentsFollowsPlan(root, doc, faults, MakeDirAll(fs, root));
    ExecuteFailFast(PlanComponents(root, doc), faults, MakeDirAll(fs, root));
  }

  /** Fail-fast, resource by resource: whatever happens, the files on disk
      are the old ones plus the first `n` resources, written in order; when a
      write fails it is the write of resource `n`, and nothing after it is
      written. */
  lemma ConvertKeepsEarlierWrites(root: Path, doc: Document, faults: Faults, fs: FileSystem) returns (n: nat)
    requires root !in faults.mkdirFails
    ensures n <= |Leaves(doc)|
    ensures Convert(root, Some(doc), faults, fs).fs.files == Stored(fs.files, LeafWrites(root, Leaves(doc)[..n]))
    ensures Convert(root, Some(doc), faults, fs).status.Done? ==> n == |Leaves(doc)|
    ensures var st := Convert(root, Some(doc), faults, fs).status;
            st.Fatal? && st.error.WriteFailed? ==> n < |Leaves(doc)| && Leaves(doc)[n].PathUnder(root) == st.error.path
  {
    var fs1 := MakeDirAll(fs, root);
    var steps := PlanComponents(root, doc);
    var leaves := Leaves(doc);
    WalkComponentsFollowsPlan(root, doc, faults, fs1);
    PlanRejectsOnlyShape(root, doc);
    n := ExecuteKeepsWritePrefix(steps, faults, fs1);
    PlanWritesAreLeaves(root, doc);
    assert LeafWrites(root, leaves[..n]) == LeafWrites(root, leaves)[..n];
  }

  /** Two components that differ only in case share a directory; the same
      resource in both is written twice, without error, and the later write
      wins. */
  lemma CaseVariantComponentsOverwrite(root: Path, c1: string, c2: string, kind: string, name: string,
                                       v1: Value, v2: Value, faults: Faults, fs: FileSystem)
    requires Lower(c1) == Lower(c2)
    requires root !in faults.mkdirFails && ComponentDir(root, c1) !in faults.mkdirFails
    requires LeafPath(root, c1, kind, name) !in faults.writeFails
    ensures var doc := [(c1, Mapping([(kind, Mapping([(name, v1)]))])),
                        (c2, Mapping([(kind, Mapping([(name, v2)]))]))];
            var r := Convert(root, Some(doc), faults, fs);
            && r.status == Done
            && LeafPath(root, c2, kind, name) == LeafPath(root, c1, kind, name)
            && LeafPath(root, c1, kind, name) in r.fs.files
            && r.fs.files[LeafPath(root, c1, kind, name)] == v2
  {
    var doc := [(c1, Mapping([(kind, Mapping([(name, v1)]))])),
                (c2, Mapping([(kind, Mapping([(name, v2)]))]))];
    var l1, l2 := Leaf(c1, kind, name, v1), Leaf(c2, kind, name, v2);
    TwoComponentLeaves(root, c1, c2, kind, name, v1, v2);
    var fs1 := MakeDirAll(fs, root);
    WalkComponentsCompletes(root, doc, faults, fs1);
    assert Convert(root, Some(doc), faults, fs).fs.files == Stored(fs1.files, LeafWrites(root, [l1, l2]));
    LeafWritesAt(root, [l1, l2]);
    StoredLastWriteWins(fs1.files, LeafWrites(root, [l1, l2]), 1);
  }

  lemma TwoComponentLeaves(root: Path, c1: string, c2: string, kind: string, name: string, v1: Value, v2: Value)
    requires Lower(c1) == Lower(c2)
    ensures var doc := [(c1, Mapping([(kind, Mapping([(name, v1)]))])),
                        (c2, Mapping([(kind, Mapping([(name, v2)]))]))];
            && WellShaped(doc)
            && Leaves(doc) == [Leaf(c1, kind, name, v1), Leaf(c2, kind, name, v2)]
            && LeafPath(root, c2, kind, name) == LeafPath(root, c1, kind, name)
            && PathsOf(root, Leaves(doc)) == {LeafPath(root, c1, kind, name)}
            && ComponentDirs(root, doc) == {ComponentDir(root, c1)}
  {
    var doc := [(c1, Mapping([(kind, Mapping([(name, v1)]))])),
                (c2, Mapping([(kind, Mapping([(name, v2)]))]))];
    var l1, l2 := Leaf(c1, kind, name, v1), Leaf(c2, kind, name, v2);
    assert KindLeaves(c1, doc[0].1.entries) == [l1];
    assert KindLeaves(c2, doc[1].1.entries) == [l2];
    assert doc[1..][1..] == [];
    assert Leaves(doc[1..]) == [l2] + Leaves(doc[1..][1..]);
    assert Leaves(doc) == [l1] + Leaves(doc[1..]);
    LeafPathComponentCaseInsensitive(root, c1, c2, kind, name);
    var p := LeafPath(root, c1, kind, name);
    assert PathsOf(root, [l1, l2]) == {p} by {
      assert l1.PathUnder(root) == p && l2.PathUnder(root) == p;
      assert forall l :: l in [l1, l2] ==> l == l1 || l == l2;
      assert l1 in [l1, l2];
    }
  }

  /** Resource contents are never inspected: two documents that differ only
      in their contents give runs that end the same way and create the same
      directories and files. */
  lemma ContentsNeverInspected(root: Path, d1: Document, d2: Document, faults: Faults, fs: FileSystem)
    requires SameShape(d1, d2)
    ensures var r1 := Convert(root, Some(d1), faults, fs);
            var r2 := Convert(root, Some(d2), faults, fs);
            r1.status == r2.status && r1.fs.dirs == r2.fs.dirs && r1.fs.files.Keys == r2.fs.files.Keys
  {
    if root !in faults.mkdirFails {
      var fs1 := MakeDirAll(fs, root);
      ComponentsOpaque(root, d1, d2, faults, fs1, fs1);
    }
  }

  /** Two filesystems that agree on everything but file contents. */
  predicate SameLayout(fs1: FileSystem, fs2: FileSystem) {
    fs1.dirs == fs2.dirs && fs1.files.Keys == fs2.files.Keys
  }

  lemma {:induction false} NamesOpaque(root: Path, comp: string, kind: string, n1: Entries, n2: Entries,
                                       faults: Faults, fs1: FileSystem, fs2: FileSystem)
    requires SameKeys(n1, n2) && SameLayout(fs1, fs2)
    ensures var r1 := WalkNames(root, comp, kind, n1, faults, fs1);
            var r2 := WalkNames(root, comp, kind, n2, faults, fs2);
            r1.status == r2.status && SameLayout(r1.fs, r2.fs)
    decreases |n1|
  {
    if |n1| > 0 {
      var p := LeafPath(root, comp, kind, n1[0].0);
      assert SameKeys(n1[1..], n2[1..]) by {
        forall m | 0 <= m < |n1[1..]| ensures n1[1..][m] == n1[m + 1] && n2[1..][m] == n2[m + 1] { }
      }
      NamesOpaque(root, comp, kind, n1[1..], n2[1..], faults,
                  WriteFile(fs1, p, n1[0].1), WriteFile(fs2, p, n2[0].1));
    }
  }

  lemma {:induction false} KindsOpaque(root: Path, comp: string, k1: Entries, k2: Entries,
                                       faults: Faults, fs1: FileSystem, fs2: FileSystem)
    requires SameKindShape(k1, k2) && SameLayout(fs1, fs2)
    ensures var r1 := WalkKinds(root, comp, k1, faults, fs1);
            var r2 := WalkKinds(root, comp, k2, faults, fs2);
            r1.status == r2.status && SameLayout(r1.fs, r2.fs)
    decreases |k1|
  {
    if |k1| > 0 {
      assert SameKindShape(k1[1..], k2[1..]) by {
        forall j | 0 <= j < |k1[1..]| ensures k1[1..][j] == k1[j + 1] && k2[1..][j] == k2[j + 1] { }
      }
      if k1[0].1.Mapping? {
        NamesOpaque(root, comp, k1[0].0, k1[0].1.entries, k2[0].1.entries, faults, fs1, fs2);
        var r1 := WalkNames(root, comp, k1[0].0, k1[0].1.entries, faults, fs1);
        var r2 := WalkNames(root, comp, k2[0].0, k2[0].1.entries, faults, fs2);
        if r1.status.Done? {
          KindsOpaque(root, comp, k1[1..], k2[1..], faults, r1.fs, r2.fs);
        }
      }
    }
  }

  lemma {:induction false} ComponentsOpaque(root: Path, d1: Document, d2: Document,
                                            faults: Faults, fs1: FileSystem, fs2: FileSystem)
    requires SameShape(d1, d2) && SameLayout(fs1, fs2)
    ensures var r1 := WalkComponents(root, d1, faults, fs1);
            var r2 := WalkComponents(root, d2, faults, fs2);
            r1.status == r2.status && SameLayout(r1.fs, r2.fs)
    decreases |d1|
  {
    if |d1| > 0 {
      assert SameShape(d1[1..], d2[1..]) by {
        forall i | 0 <= i < |d1[1..]| ensures d1[1..][i] == d1[i + 1] && d2[1..][i] == d2[i + 1] { }
      }
      var dir := ComponentDir(root, d1[0].0);
      if d1[0].1.Mapping? && dir !in faults.mkdirFails {
        var g1, g2 := MakeDirAll(fs1, dir), MakeDirAll(fs2, dir);
        KindsOpaque(root, d1[0].0, d1[0].1.entries, d2[0].1.entries, faults, g1, g2);
        var r1 := WalkKinds(root, d1[0].0, d1[0].1.entries, faults, g1);
        var r2 := WalkKinds(root, d2[0].0, d2[0].1.entries, faults, g2);
        if r1.status.Done? {
          ComponentsOpaque(root, d1[1..], d2[1..], faults, r1.fs, r2.fs);
        }
      }
    }
  }

  /** A one-resource record lands in the lower-cased component directory,
      named after the resource and its kind. */
  lemma SingleResourceExample()
    ensures var contents := Mapping([("port", Scalar("8080"))]);
            var doc := [("Api", Mapping([("service", Mapping([("frontend", contents)]))]))];
            Convert("/out", Some(doc), Faults({}, {}), FileSystem({}, map[]))
            == Outcome(FileSystem({"/out", "/out/api"}, map["/out/api/frontend.service.yaml" := contents]), Done)
  {
    var contents := Mapping([("port", Scalar("8080"))]);
    var kinds := [("service", Mapping([("frontend", contents)]))];
    var doc := [("Api", Mapping(kinds))];
    assert ComponentDir("/out", "Api") == "/out/api" by {
      assert Lower("Api") == "api";
    }
    ExampleKinds(contents);
    assert doc[1..] == [];
  }

  lemma ExampleKinds(contents: Value)
    ensures var fs := FileSystem({"/out", "/out/api"}, map[]);
            var kinds := [("service", Mapping([("frontend", contents)]))];
            WalkKinds("/out", "Api", kinds, Faults({}, {}), fs)
            == Outcome(fs.(files := map["/out/api/frontend.service.yaml" := contents]), Done)
  {
    var kinds := [("service", Mapping([("frontend", contents)]))];
    ExampleNames(contents);
    assert kinds[1..] == [];
  }

  lemma ExampleNames(contents: Value)
    ensures var fs := FileSystem({"/out", "/out/api"}, map[]);
            WalkNames("/out", "Api", "service", [("frontend", contents)], Faults({}, {}), fs)
            == Outcome(fs.(files := map["/out/api/frontend.service.yaml" := contents]), Done)
  {
    var fs := FileSystem({"/out", "/out/api"}, map[]);
    var names := [("frontend", contents)];
    var path := "/out/api/frontend.service.yaml";
    assert LeafPath("/out", "Api", "service", "frontend") == path by {
      assert Lower("Api") == "api";
    }
    assert WriteFile(fs, path, contents) == fs.(files := map[path := contents]);
    assert WalkNames("/out", "Api", "service", names[1..], Faults({}, {}), WriteFile(fs, path, contents))
        == Outcome(WriteFile(fs, path, contents), Done) by {
      assert names[1..] == [];
    }
  }

  /** A component that is not a mapping stops the run before anything is
      written below the output directory. */
  lemma InvalidComponentExample()
    ensures Convert("/out", Some([("Api", Scalar("not-a-mapping"))]), Faults({}, {}), FileSystem({}, map[]))
            == Outcome(FileSystem({"/out"}, map[]), Fatal(InvalidComponent("Api")))
  {
  }
}
