/** The filesystem as the walk sees it: the directories `os.MkdirAll` has
    established and the contents stored in each file. Which calls fail is
    decided by a fault oracle, since permissions, full disks and invalid
    paths are outside the model. */
module Disk {
  import opened Values
  import opened Paths

  datatype FileSystem = FileSystem(dirs: set<Path>, files: map<Path, Value>)

  /** The paths at which `os.MkdirAll` and `writeYaml` report an error. */
  datatype Faults = Faults(mkdirFails: set<Path>, writeFails: set<Path>)

  /** A successful `os.MkdirAll(p)`: `p` exists afterwards; an existing
      directory is tolerated. */
  function MakeDirAll(fs: FileSystem, p: Path): FileSystem {
    fs.(dirs := fs.dirs + {p})
  }

  /** A successful `writeYaml(p, v)`: `os.Create` truncates, so the file holds
      exactly `v` afterwards, whatever it held before. The error of the
      deferred buffer flush is dropped by the tool and is not modelled. */
  function WriteFile(fs: FileSystem, p: Path, v: Value): FileSystem {
    fs.(files := fs.files[p := v])
  }

  /** The paths a sequence of writes touches. */
  function WrittenPaths(ws: seq<(Path, Value)>): set<Path> {
    set i | 0 <= i < |ws| :: ws[i].0
  }

  /** The file contents after a sequence of successful writes, in order. */
  function Stored(files: map<Path, Value>, ws: seq<(Path, Value)>): (r: map<Path, Value>)
    ensures r.Keys == files.Keys + WrittenPaths(ws)
    ensures forall p :: p in files && p !in WrittenPaths(ws) ==> r[p] == files[p]
    decreases |ws|
  {
    if |ws| == 0 then files
    else
      var r := Stored(files[ws[0].0 := ws[0].1], ws[1..]);
      assert WrittenPaths(ws) == {ws[0].0} + WrittenPaths(ws[1..]) by {
        forall p | p in WrittenPaths(ws) ensures p in {ws[0].0} + WrittenPaths(ws[1..]) {
          var i :| 0 <= i < |ws| && ws[i].0 == p;
          if i > 0 { assert ws[1..][i - 1].0 == p; }
        }
        forall p | p in WrittenPaths(ws[1..]) ensures p in WrittenPaths(ws) {
          var i :| 0 <= i < |ws[1..]| && ws[1..][i].0 == p;
          assert ws[i + 1].0 == p;
        }
      }
      r
  }

  /** Writes compose: storing `a + b` is storing `a`, then `b`. */
  lemma {:induction false} StoredAppend(files: map<Path, Value>, a: seq<(Path, Value)>, b: seq<(Path, Value)>)
    ensures Stored(files, a + b) == Stored(Stored(files, a), b)
    decreases |a|
  {
    if |a| > 0 {
      assert (a + b)[0] == a[0];
      assert (a + b)[1..] == a[1..] + b;
      StoredAppend(files[a[0].0 := a[0].1], a[1..], b);
    } else {
      assert a + b == b;
    }
  }

  /** The last write to a path decides its contents. */
  lemma {:induction false} StoredLastWriteWins(files: map<Path, Value>, ws: seq<(Path, Value)>, i: nat)
    requires i < |ws|
    requires forall j :: i < j < |ws| ==> ws[j].0 != ws[i].0
    ensures ws[i].0 in Stored(files, ws)
    ensures Stored(files, ws)[ws[i].0] == ws[i].1
    decreases |ws|
  {
    var m := files[ws[0].0 := ws[0].1];
    if i == 0 {
      assert ws[0].0 !in WrittenPaths(ws[1..]) by {
        forall k | 0 <= k < |ws[1..]| ensures ws[1..][k].0 != ws[0].0 {
          assert ws[1..][k] == ws[k + 1];
        }
      }
    } else {
      forall j | i - 1 < j < |ws[1..]| ensures ws[1..][j].0 != ws[1..][i - 1].0 {
        assert ws[1..][j] == ws[j + 1];
      }
      StoredLastWriteWins(m, ws[1..], i - 1);
    }
  }
}
