/** The walk flattened into the list of effects it attempts, in order, and a
    generic executor that stops at the first effect that fails. Proving the
    walk equal to "execute the plan" turns its fail-fast behaviour into a
    statement about prefixes: a run performs exactly the effects before the
    first failing one, and keeps them (main.go:70-73). */
module Plan {
  import opened Results
  import opened Values
  import opened Paths
  import opened Disk
  import opened Record
  import opened Walk

  /** One attempted effect. A `Reject` is a shape check that does not pass. */
  datatype Step =
    | MakeDir(path: Path)
    | Write(path: Path, contents: Value)
    | Reject(error: Error)

  predicate Fails(s: Step, faults: Faults) {
    match s
    case MakeDir(p) => p in faults.mkdirFails
    case Write(p, _) => p in faults.writeFails
    case Reject(_) => true
  }

  function ErrorOf(s: Step): Error {
    match s
    case MakeDir(p) => MkdirFailed(p)
    case Write(p, _) => WriteFailed(p)
    case Reject(e) => e
  }

  /** The effect of a step that succeeds. */
  function Apply(fs: FileSystem, s: Step): FileSystem {
    match s
    case MakeDir(p) => MakeDirAll(fs, p)
    case Write(p, v) => WriteFile(fs, p, v)
    case Reject(_) => fs
  }

  function ApplyAll(fs: FileSystem, steps: seq<Step>): FileSystem
    decreases |steps|
  {
    if |steps| == 0 then fs else ApplyAll(Apply(fs, steps[0]), steps[1..])
  }

  /** Run the steps in order; the first failing step ends the run with its error. */
  function Execute(steps: seq<Step>, faults: Faults, fs: FileSystem): Outcome
    decreases |steps|
  {
    if |steps| == 0 then Outcome(fs, Done)
    else if Fails(steps[0], faults) then Outcome(fs, Fatal(ErrorOf(steps[0])))
    else Execute(steps[1..], faults, Apply(fs, steps[0]))
  }

  /** The index of the first failing step, or the length when none fails. */
  function FirstFailure(steps: seq<Step>, faults: Faults): (k: nat)
    ensures k <= |steps|
    ensures forall j :: 0 <= j < k ==> !Fails(steps[j], faults)
    ensures k < |steps| ==> Fails(steps[k], faults)
    decreases |steps|
  {
    if |steps| == 0 then 0
    else if Fails(steps[0], faults) then 0
    else
      var k := FirstFailure(steps[1..], faults);
      assert forall j :: 0 < j < k + 1 ==> steps[j] == steps[1..][j - 1];
      k + 1
  }

  /** The writes among some steps, in order. */
  function WritesOf(steps: seq<Step>): seq<(Path, Value)>
    decreases |steps|
  {
    if |steps| == 0 then []
    else if steps[0].Write? then [(steps[0].path, steps[0].contents)] + WritesOf(steps[1..])
    else WritesOf(steps[1..])
  }

  // ----- The plan of the walk in main.go:152-177 -----

  function PlanNames(root: Path, comp: string, kind: string, names: Entries): seq<Step>
    decreases |names|
  {
    if |names| == 0 then []
    else [Write(LeafPath(root, comp, kind, names[0].0), names[0].1)]
         + PlanNames(root, comp, kind, names[1..])
  }

  function PlanKinds(root: Path, comp: string, kinds: Entries): seq<Step>
    decreases |kinds|
  {
    if |kinds| == 0 then []
    else
      (match kinds[0].1
       case Mapping(names) => PlanNames(root, comp, kinds[0].0, names)
       case _ => [Reject(InvalidKind(comp, kinds[0].0))])
      + PlanKinds(root, comp, kinds[1..])
  }

  function PlanComponents(root: Path, comps: Document): seq<Step>
    decreases |comps|
  {
    if |comps| == 0 then []
    else
      (match comps[0].1
       case Mapping(kinds) => [MakeDir(ComponentDir(root, comps[0].0))] + PlanKinds(root, comps[0].0, kinds)
       case _ => [Reject(InvalidComponent(comps[0].0))])
      + PlanComponents(root, comps[1..])
  }

  // ----- The executor -----

  /** Executing `a + b` is executing `a`, then `b` unless `a` failed. */
  lemma {:induction false} ExecuteAppend(a: seq<Step>, b: seq<Step>, faults: Faults, fs: FileSystem)
    ensures Execute(a + b, faults, fs)
         == (var r := Execute(a, faults, fs); if r.status.Fatal? then r else Execute(b, faults, r.fs))
    decreases |a|
  {
    if |a| == 0 {
      assert a + b == b;
    } else {
      assert (a + b)[0] == a[0];
      assert (a + b)[1..] == a[1..] + b;
      if !Fails(a[0], faults) {
        ExecuteAppend(a[1..], b, faults, Apply(fs, a[0]));
      }
    }
  }

  /** Fail-fast: a run applies exactly the steps before the first failing
      one and reports that step's error; with no failing step it applies
      them all and ends `Done`. */
  lemma {:induction false} ExecuteFailFast(steps: seq<Step>, faults: Faults, fs: FileSystem)
    ensures var k := FirstFailure(steps, faults);
            Execute(steps, faults, fs)
            == Outcome(ApplyAll(fs, steps[..k]), if k == |steps| then Done else Fatal(ErrorOf(steps[k])))
    decreases |steps|
  {
    if |steps| > 0 && !Fails(steps[0], faults) {
      ExecuteFailFast(steps[1..], faults, Apply(fs, steps[0]));
      var k := FirstFailure(steps[1..], faults);
      assert steps[..k + 1][0] == steps[0];
      assert steps[..k + 1][1..] == steps[1..][..k];
      if k < |steps[1..]| {
        assert steps[k + 1] == steps[1..][k];
      }
    }
  }

  lemma {:induction false} WritesOfAppend(a: seq<Step>, b: seq<Step>)
    ensures WritesOf(a + b) == WritesOf(a) + WritesOf(b)
    decreases |a|
  {
    if |a| == 0 {
      assert a + b == b;
    } else {
      assert (a + b)[0] == a[0];
      assert (a + b)[1..] == a[1..] + b;
      WritesOfAppend(a[1..], b);
    }
  }

  /** Applying steps stores their writes, in order, and nothing else. */
  lemma {:induction false} ApplyAllStoresWrites(fs: FileSystem, steps: seq<Step>)
    ensures ApplyAll(fs, steps).files == Stored(fs.files, WritesOf(steps))
    decreases |steps|
  {
    if |steps| > 0 {
      ApplyAllStoresWrites(Apply(fs, steps[0]), steps[1..]);
      if steps[0].Write? {
        var ws := WritesOf(steps);
        assert ws[0] == (steps[0].path, steps[0].contents) && ws[1..] == WritesOf(steps[1..]);
      } else {
        assert Apply(fs, steps[0]).files == fs.files;
      }
    }
  }

  // ----- The walk follows its plan -----

  lemma {:induction false} WalkNamesFollowsPlan(root: Path, comp: string, kind: string, names: Entries,
                                                faults: Faults, fs: FileSystem)
    ensures WalkNames(root, comp, kind, names, faults, fs)
         == Execute(PlanNames(root, comp, kind, names), faults, fs)
    decreases |names|
  {
    if |names| > 0 {
      var p := LeafPath(root, comp, kind, names[0].0);
      ExecuteAppend([Write(p, names[0].1)], PlanNames(root, comp, kind, names[1..]), faults, fs);
      WalkNamesFollowsPlan(root, comp, kind, names[1..], faults, WriteFile(fs, p, names[0].1));
    }
  }

  lemma {:induction false} WalkKindsFollowsPlan(root: Path, comp: string, kinds: Entries,
                                                faults: Faults, fs: FileSystem)
    ensures WalkKinds(root, comp, kinds, faults, fs) == Execute(PlanKinds(root, comp, kinds), faults, fs)
    decreases |kinds|
  {
    if |kinds| > 0 {
      match kinds[0].1
      case Mapping(names) =>
        var first := PlanNames(root, comp, kinds[0].0, names);
        ExecuteAppend(first, PlanKinds(root, comp, kinds[1..]), faults, fs);
        WalkNamesFollowsPlan(root, comp, kinds[0].0, names, faults, fs);
        var r1 := WalkNames(root, comp, kinds[0].0, names, faults, fs);
        if r1.status.Done? {
          WalkKindsFollowsPlan(root, comp, kinds[1..], faults, r1.fs);
        }
      case _ =>
        ExecuteAppend([Reject(InvalidKind(comp, kinds[0].0))], PlanKinds(root, comp, kinds[1..]), faults, fs);
    }
  }

  lemma {:induction false} WalkComponentsFollowsPlan(root: Path, comps: Document, faults: Faults, fs: FileSystem)
    ensures WalkComponents(root, comps, faults, fs) == Execute(PlanComponents(root, comps), faults, fs)
    decreases |comps|
  {
    if |comps| > 0 {
      var comp := comps[0].0;
      match comps[0].1
      case Mapping(kinds) =>
        var dir := ComponentDir(root, comp);
        var first := [MakeDir(dir)] + PlanKinds(root, comp, kinds);
        ExecuteAppend(first, PlanComponents(root, comps[1..]), faults, fs);
        ExecuteAppend([MakeDir(dir)], PlanKinds(root, comp, kinds), faults, fs);
        if dir !in faults.mkdirFails {
          WalkKindsFollowsPlan(root, comp, kinds, faults, MakeDirAll(fs, dir));
          var r1 := WalkKinds(root, comp, kinds, faults, MakeDirAll(fs, dir));
          if r1.status.Done? {
            WalkComponentsFollowsPlan(root, comps[1..], faults, r1.fs);
          }
        }
      case _ =>
        ExecuteAppend([Reject(InvalidComponent(comp))], PlanComponents(root, comps[1..]), faults, fs);
    }
  }

  // ----- The writes of the plan are the leaves of the record -----

  lemma {:induction false} PlanNamesWrites(root: Path, comp: string, kind: string, names: Entries)
    ensures WritesOf(PlanNames(root, comp, kind, names)) == LeafWrites(root, NameLeaves(comp, kind, names))
    decreases |names|
  {
    if |names| > 0 {
      var w := Write(LeafPath(root, comp, kind, names[0].0), names[0].1);
      var leaf := Leaf(comp, kind, names[0].0, names[0].1);
      WritesOfAppend([w], PlanNames(root, comp, kind, names[1..]));
      PlanNamesWrites(root, comp, kind, names[1..]);
      LeafWritesAppend(root, [leaf], NameLeaves(comp, kind, names[1..]));
      assert WritesOf([w]) == LeafWrites(root, [leaf]) by {
        assert [w][1..] == [];
      }
    }
  }

  lemma {:induction false} PlanKindsWrites(root: Path, comp: string, kinds: Entries)
    ensures WritesOf(PlanKinds(root, comp, kinds)) == LeafWrites(root, KindLeaves(comp, kinds))
    decreases |kinds|
  {
    if |kinds| > 0 {
      PlanKindsWrites(root, comp, kinds[1..]);
      match kinds[0].1
      case Mapping(names) =>
        assert PlanKinds(root, comp, kinds) == PlanNames(root, comp, kinds[0].0, names) + PlanKinds(root, comp, kinds[1..]);
        assert KindLeaves(comp, kinds) == NameLeaves(comp, kinds[0].0, names) + KindLeaves(comp, kinds[1..]);
        WritesOfAppend(PlanNames(root, comp, kinds[0].0, names), PlanKinds(root, comp, kinds[1..]));
        PlanNamesWrites(root, comp, kinds[0].0, names);
        LeafWritesAppend(root, NameLeaves(comp, kinds[0].0, names), KindLeaves(comp, kinds[1..]));
      case _ =>
        var rj := [Reject(InvalidKind(comp, kinds[0].0))];
        WritesOfAppend(rj, PlanKinds(root, comp, kinds[1..]));
        assert WritesOf(rj) == [] by { assert rj[1..] == []; }
        assert KindLeaves(comp, kinds) == KindLeaves(comp, kinds[1..]);
    }
  }

  lemma {:induction false} PlanWritesAreLeaves(root: Path, comps: Document)
    ensures WritesOf(PlanComponents(root, comps)) == LeafWrites(root, Leaves(comps))
    decreases |comps|
  {
    if |comps| > 0 {
      PlanWritesAreLeaves(root, comps[1..]);
      match comps[0].1
      case Mapping(kinds) =>
        var md := [MakeDir(ComponentDir(root, comps[0].0))];
        var first := md + PlanKinds(root, comps[0].0, kinds);
        WritesOfAppend(first, PlanComponents(root, comps[1..]));
        WritesOfAppend(md, PlanKinds(root, comps[0].0, kinds));
        assert WritesOf(md) == [] by { assert md[1..] == []; }
        PlanKindsWrites(root, comps[0].0, kinds);
        LeafWritesAppend(root, KindLeaves(comps[0].0, kinds), Leaves(comps[1..]));
      case _ =>
        var rj := [Reject(InvalidComponent(comps[0].0))];
        WritesOfAppend(rj, PlanComponents(root, comps[1..]));
        assert WritesOf(rj) == [] by { assert rj[1..] == []; }
        assert Leaves(comps) == [] + Leaves(comps[1..]);
    }
  }

  // ----- Which files a failed run leaves behind -----

  /** The plan's only rejections are shape errors. */
  predicate RejectsOnlyShape(steps: seq<Step>) {
    forall i :: 0 <= i < |steps| && steps[i].Reject? ==> steps[i].error.IsShapeError()
  }

  lemma RejectsOnlyShapeAppend(a: seq<Step>, b: seq<Step>)
    requires RejectsOnlyShape(a) && RejectsOnlyShape(b)
    ensures RejectsOnlyShape(a + b)
  {
    forall i | 0 <= i < |a + b| && (a + b)[i].Reject? ensures (a + b)[i].error.IsShapeError() {
      if i >= |a| { assert (a + b)[i] == b[i - |a|]; }
    }
  }

  lemma {:induction false} PlanRejectsOnlyShape(root: Path, comps: Document)
    ensures RejectsOnlyShape(PlanComponents(root, comps))
    decreases |comps|
  {
    if |comps| > 0 {
      PlanRejectsOnlyShape(root, comps[1..]);
      match comps[0].1
      case Mapping(kinds) =>
        PlanKindsRejectsOnlyShape(root, comps[0].0, kinds);
        RejectsOnlyShapeAppend([MakeDir(ComponentDir(root, comps[0].0))], PlanKinds(root, comps[0].0, kinds));
        RejectsOnlyShapeAppend([MakeDir(ComponentDir(root, comps[0].0))] + PlanKinds(root, comps[0].0, kinds),
                               PlanComponents(root, comps[1..]));
      case _ =>
        RejectsOnlyShapeAppend([Reject(InvalidComponent(comps[0].0))], PlanComponents(root, comps[1..]));
    }
  }

  lemma {:induction false} PlanKindsRejectsOnlyShape(root: Path, comp: string, kinds: Entries)
    ensures RejectsOnlyShape(PlanKinds(root, comp, kinds))
    decreases |kinds|
  {
    if |kinds| > 0 {
      PlanKindsRejectsOnlyShape(root, comp, kinds[1..]);
      match kinds[0].1
      case Mapping(names) =>
        var ws := PlanNames(root, comp, kinds[0].0, names);
        assert forall i :: 0 <= i < |ws| ==> ws[i].Write? by {
          PlanNamesOnlyWrites(root, comp, kinds[0].0, names);
        }
        RejectsOnlyShapeAppend(ws, PlanKinds(root, comp, kinds[1..]));
      case _ =>
        RejectsOnlyShapeAppend([Reject(InvalidKind(comp, kinds[0].0))], PlanKinds(root, comp, kinds[1..]));
    }
  }

  lemma {:induction false} PlanNamesOnlyWrites(root: Path, comp: string, kind: string, names: Entries)
    ensures forall i :: 0 <= i < |PlanNames(root, comp, kind, names)| ==> PlanNames(root, comp, kind, names)[i].Write?
    decreases |names|
  {
    if |names| > 0 {
      PlanNamesOnlyWrites(root, comp, kind, names[1..]);
    }
  }

  /** Whatever happens, the files a run leaves are the old ones plus the
      first `n` planned writes; a failed write is write number `n`. */
  lemma ExecuteKeepsWritePrefix(steps: seq<Step>, faults: Faults, fs: FileSystem) returns (n: nat)
    requires RejectsOnlyShape(steps)
    ensures n <= |WritesOf(steps)|
    ensures Execute(steps, faults, fs).fs.files == Stored(fs.files, WritesOf(steps)[..n])
    ensures Execute(steps, faults, fs).status.Done? ==> n == |WritesOf(steps)|
    ensures var st := Execute(steps, faults, fs).status;
            st.Fatal? && st.error.WriteFailed? ==> n < |WritesOf(steps)| && WritesOf(steps)[n].0 == st.error.path
  {
    var k := FirstFailure(steps, faults);
    ExecuteFailFast(steps, faults, fs);
    ApplyAllStoresWrites(fs, steps[..k]);
    assert steps == steps[..k] + steps[k..];
    WritesOfAppend(steps[..k], steps[k..]);
    n := |WritesOf(steps[..k])|;
    assert WritesOf(steps)[..n] == WritesOf(steps[..k]);
    if k < |steps| && steps[k].Write? {
      assert steps[k..][0] == steps[k];
      assert WritesOf(steps)[n] == WritesOf(steps[k..])[0];
    }
  }
}
