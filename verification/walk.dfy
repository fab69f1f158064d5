/** The record walk of `main` (main.go:142-177), loop by loop. Validation
    and writing are interleaved exactly as in the source: a component's
    directory is created before its kinds are checked, and every file
    written before a fatal error stays on disk. */
module Walk {
  import opened Results
  import opened Values
  import opened Paths
  import opened Disk
  import opened Record

  datatype Status = Done | Fatal(error: Error)

  /** The filesystem a run leaves behind, and how the run ended. */
  datatype Outcome = Outcome(fs: FileSystem, status: Status)

  /** The innermost loop over the resources of one kind (main.go:168-175).
      The only error it can raise is a failed write of one of its files. */
  function WalkNames(root: Path, comp: string, kind: string, names: Entries,
                     faults: Faults, fs: FileSystem): (r: Outcome)
    ensures r.fs.dirs == fs.dirs
    ensures fs.files.Keys <= r.fs.files.Keys
    ensures r.status.Fatal? ==> r.status.error.WriteFailed?
                                && r.status.error.path in faults.writeFails
                                && r.status.error.path in PathsOf(root, NameLeaves(comp, kind, names))
    decreases |names|
  {
    if |names| == 0 then Outcome(fs, Done)
    else
      var path := LeafPath(root, comp, kind, names[0].0);
      NameLeavesCons(root, comp, kind, names);
      // A refused write is taken to leave its path as it was, although
      // `os.Create` may already have created or truncated the file.
      if path in faults.writeFails then Outcome(fs, Fatal(WriteFailed(path)))
      else WalkNames(root, comp, kind, names[1..], faults, WriteFile(fs, path, names[0].1))
  }

  /** The loop over the kinds of one component (main.go:162-176). Its shape
      error is the first non-mapping kind, as the validating reader finds it. */
  function WalkKinds(root: Path, comp: string, kinds: Entries,
                     faults: Faults, fs: FileSystem): (r: Outcome)
    ensures r.fs.dirs == fs.dirs
    ensures fs.files.Keys <= r.fs.files.Keys
    ensures r.status.Fatal? && r.status.error.WriteFailed? ==>
              r.status.error.path in faults.writeFails
              && r.status.error.path in PathsOf(root, KindLeaves(comp, kinds))
    ensures r.status.Fatal? && !r.status.error.WriteFailed? ==>
              DecomposeKinds(comp, kinds) == Err(r.status.error)
    decreases |kinds|
  {
    if |kinds| == 0 then Outcome(fs, Done)
    else
      match kinds[0].1
      case Mapping(names) =>
        KindLeavesCons(root, comp, kinds);
        var r1 := WalkNames(root, comp, kinds[0].0, names, faults, fs);
        if r1.status.Fatal? then r1
        else WalkKinds(root, comp, kinds[1..], faults, r1.fs)
      case _ =>
        // main.go:163-166: the kind is not a map[string]interface{}.
        Outcome(fs, Fatal(InvalidKind(comp, kinds[0].0)))
  }

  /** The loop over the components of the record (main.go:152-177). */
  function WalkComponents(root: Path, comps: Document, faults: Faults, fs: FileSystem): (r: Outcome)
    ensures fs.dirs <= r.fs.dirs
    ensures fs.files.Keys <= r.fs.files.Keys
    ensures r.status.Fatal? && r.status.error.WriteFailed? ==>
              r.status.error.path in faults.writeFails && r.status.error.path in PathsOf(root, Leaves(comps))
    ensures r.status.Fatal? && r.status.error.MkdirFailed? ==>
              r.status.error.path in faults.mkdirFails && r.status.error.path in ComponentDirs(root, comps)
    ensures r.status.Fatal? && r.status.error.IsShapeError() ==> Decompose(comps) == Err(r.status.error)
    ensures r.status.Fatal? ==> !r.status.error.ReadFailed?
    ensures r.status.Fatal? && r.status.error.InvalidKind? ==>
              ComponentDir(root, r.status.error.component) in r.fs.dirs
    decreases |comps|
  {
    if |comps| == 0 then Outcome(fs, Done)
    else
      var comp := comps[0].0;
      var dir := ComponentDir(root, comp);
      match comps[0].1
      case Mapping(kinds) =>
        LeavesCons(root, comps);
        if dir in faults.mkdirFails then
          // main.go:157-160
          Outcome(fs, Fatal(MkdirFailed(dir)))
        else
          var r1 := WalkKinds(root, comp, kinds, faults, MakeDirAll(fs, dir));
          WalkKindsCompletes(root, comp, kinds, faults, MakeDirAll(fs, dir));
          if r1.status.Fatal? then r1
          else WalkComponents(root, comps[1..], faults, r1.fs)
      case _ =>
        // main.go:153-156: the component is not a map[string]interface{}.
        Outcome(fs, Fatal(InvalidComponent(comp)))
  }

  /** `main` from the creation of the output directory on (main.go:142-177).
      `record` is what `readRecord` returned: the decoded document, or
      `None` when the evaluator or the decoder failed. */
  function Convert(root: Path, record: Option<Document>, faults: Faults, fs: FileSystem): (r: Outcome)
    ensures fs.dirs <= r.fs.dirs && fs.files.Keys <= r.fs.files.Keys
    ensures root in faults.mkdirFails ==> r == Outcome(fs, Fatal(MkdirFailed(root)))
    ensures root !in faults.mkdirFails ==> root in r.fs.dirs
    ensures root !in faults.mkdirFails && record.None? ==>
              r.status == Fatal(ReadFailed) && r.fs.dirs == fs.dirs + {root} && r.fs.files == fs.files
  {
    if root in faults.mkdirFails then Outcome(fs, Fatal(MkdirFailed(root)))
    else
      var fs1 := MakeDirAll(fs, root);
      match record
      case None => Outcome(fs1, Fatal(ReadFailed))
      case Some(doc) => WalkComponents(root, doc, faults, fs1)
  }

  // ----- Completion: when each loop finishes, and what it leaves -----

  lemma {:induction false} WalkNamesCompletes(root: Path, comp: string, kind: string, names: Entries,
                                              faults: Faults, fs: FileSystem)
    ensures var r := WalkNames(root, comp, kind, names, faults, fs);
            && (r.status.Done? <==> PathsOf(root, NameLeaves(comp, kind, names)) !! faults.writeFails)
            && (r.status.Done? ==> r.fs.files == Stored(fs.files, LeafWrites(root, NameLeaves(comp, kind, names))))
    decreases |names|
  {
    if |names| > 0 {
      var path := LeafPath(root, comp, kind, names[0].0);
      var leaf := Leaf(comp, kind, names[0].0, names[0].1);
      var rest := NameLeaves(comp, kind, names[1..]);
      NameLeavesCons(root, comp, kind, names);
      if path !in faults.writeFails {
        var fs' := WriteFile(fs, path, names[0].1);
        WalkNamesCompletes(root, comp, kind, names[1..], faults, fs');
        LeafWritesAppend(root, [leaf], rest);
        StoredAppend(fs.files, LeafWrites(root, [leaf]), LeafWrites(root, rest));
        assert Stored(fs.files, LeafWrites(root, [leaf])) == fs'.files by {
          assert LeafWrites(root, [leaf])[1..] == [];
        }
      }
    }
  }

  lemma {:induction false} WalkKindsCompletes(root: Path, comp: string, kinds: Entries,
                                              faults: Faults, fs: FileSystem)
    ensures var r := WalkKinds(root, comp, kinds, faults, fs);
            && (r.status.Done? <==> KindsAreMappings(kinds)
                                    && PathsOf(root, KindLeaves(comp, kinds)) !! faults.writeFails)
            && (r.status.Done? ==> r.fs.files == Stored(fs.files, LeafWrites(root, KindLeaves(comp, kinds))))
    decreases |kinds|
  {
    if |kinds| > 0 {
      KindsAreMappingsCons(kinds);
      match kinds[0].1
      case Mapping(names) =>
        var first := NameLeaves(comp, kinds[0].0, names);
        var rest := KindLeaves(comp, kinds[1..]);
        KindLeavesCons(root, comp, kinds);
        WalkNamesCompletes(root, comp, kinds[0].0, names, faults, fs);
        var r1 := WalkNames(root, comp, kinds[0].0, names, faults, fs);
        if r1.status.Done? {
          WalkKindsCompletes(root, comp, kinds[1..], faults, r1.fs);
          LeafWritesAppend(root, first, rest);
          StoredAppend(fs.files, LeafWrites(root, first), LeafWrites(root, rest));
        }
      case _ =>
    }
  }

  lemma {:induction false} WalkComponentsCompletes(root: Path, comps: Document, faults: Faults, fs: FileSystem)
    ensures var r := WalkComponents(root, comps, faults, fs);
            && (r.status.Done? <==> WellShaped(comps)
                                    && ComponentDirs(root, comps) !! faults.mkdirFails
                                    && PathsOf(root, Leaves(comps)) !! faults.writeFails)
            && (r.status.Done? ==> r.fs == FileSystem(fs.dirs + ComponentDirs(root, comps),
                                                      Stored(fs.files, LeafWrites(root, Leaves(comps)))))
    decreases |comps|
  {
    if |comps| > 0 {
      WellShapedCons(comps);
      var comp := comps[0].0;
      var dir := ComponentDir(root, comp);
      match comps[0].1
      case Mapping(kinds) =>
        var first := KindLeaves(comp, kinds);
        var rest := Leaves(comps[1..]);
        LeavesCons(root, comps);
        if dir !in faults.mkdirFails {
          var fs1 := MakeDirAll(fs, dir);
          WalkKindsCompletes(root, comp, kinds, faults, fs1);
          var r1 := WalkKinds(root, comp, kinds, faults, fs1);
          if r1.status.Done? {
            WalkComponentsCompletes(root, comps[1..], faults, r1.fs);
            LeafWritesAppend(root, first, rest);
            StoredAppend(fs.files, LeafWrites(root, first), LeafWrites(root, rest));
          }
        }
      case _ =>
    }
  }
}
