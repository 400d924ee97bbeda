/** Publishing a file so that a crash cannot empty it (src/core/AtomicFile.cpp). */
module AtomicFile {

  /** A file is a complete version, or what an unfinished write left. */
  datatype Content = Complete(version: nat) | Torn

  type Volume = map<string, Content>

  function PartPath(path: string): (r: string)
    ensures r != path
  {
    path + ".part"
  }

  function Rename(vol: Volume, from: string, to: string): Volume
    requires from in vol
  {
    (vol - {from})[to := vol[from]]
  }

  /** publish, with what the two directory operations answer. */
  function Published(vol: Volume, path: string, removeOk: bool, renameOk: bool): (Volume, bool) {
    var part := PartPath(path);
    if part !in vol then (vol, false)
    else if path in vol && !removeOk then (vol, false)
    else if !renameOk then (vol - {path}, false)
    else (Rename(vol - {path}, part, path), true)
  }

  function Recovered(vol: Volume, path: string): Volume {
    var part := PartPath(path);
    if path in vol || part !in vol then vol else Rename(vol, part, path)
  }

  class FileStore {
    var files: Volume

    constructor (vol: Volume)
      ensures files == vol
    {
      files := vol;
    }

    method Publish(path: string, removeOk: bool, renameOk: bool) returns (ok: bool)
      modifies this
      ensures (files, ok) == Published(old(files), path, removeOk, renameOk)
    {
      var part := PartPath(path);
      if part !in files { return false; }
      if path in files {
        if !removeOk { return false; }
        files := files - {path};
      }
      assert files == old(files) - {path};
      if !renameOk { return false; }
      files := (files - {part})[path := files[part]];
      return true;
    }

    method Recover(path: string)
      modifies this
      ensures files == Recovered(old(files), path)
    {
      if path in files { return; }
      var part := PartPath(path);
      if part !in files { return; }
      files := (files - {part})[path := files[part]];
    }
  }

  // ----- A save, cut anywhere

  /** The four steps of a save: open the part (which empties it), finish it, remove
      the old file, rename the part. */
  const STEPS: nat := 4

  function Write(vol: Volume, path: string, content: Content): Volume {
    vol[PartPath(path) := content]
  }

  /** The volume after the first `k` steps of saving `version`. */
  function SavedUpTo(vol: Volume, path: string, version: nat, k: nat): Volume
    requires k <= STEPS
  {
    if k == 0 then vol
    else if k == 1 then Write(vol, path, Torn)
    else
      var written := Write(vol, path, Complete(version));
      if k == 2 then written
      else if k == 3 then written - {path}
      else Published(written, path, true, true).0
  }

  /** A save that is not cut leaves the new version and no part; cut before its last step
      it leaves the finished part and no file; and other files stay as they are. */
  lemma {:induction false} SaveEnds(vol: Volume, path: string, version: nat)
    ensures SavedUpTo(vol, path, version, 4) == (vol - {PartPath(path)})[path := Complete(version)]
    ensures SavedUpTo(vol, path, version, 3) == (vol - {path})[PartPath(path) := Complete(version)]
  {
  }

  predicate HoldsComplete(vol: Volume, path: string) {
    path in vol && vol[path].Complete?
  }

  /** Wherever a save is cut, recovery finds the previous version or the new one
      complete, and touches no other file. */
  lemma {:induction false} CrashLeavesAVersion(vol: Volume, path: string, version: nat, k: nat)
    requires HoldsComplete(vol, path) && k <= STEPS
    ensures var r := Recovered(SavedUpTo(vol, path, version, k), path);
      && path in r && r[path] == (if k <= 2 then vol[path] else Complete(version))
      && (forall f :: f in vol && f != path && f != PartPath(path) ==> f in r && r[f] == vol[f])
  {
  }

  /** A save can be cut anywhere without harm if and only if the volume already
      holds a complete version: the first save of a file is not protected. */
  lemma {:induction false} SafeExactlyWhenPresent(vol: Volume, path: string, version: nat)
    ensures (forall k :: 0 <= k <= STEPS ==> HoldsComplete(Recovered(SavedUpTo(vol, path, version, k), path), path))
      <==> HoldsComplete(vol, path)
  {
    if HoldsComplete(vol, path) {
      forall k | 0 <= k <= STEPS
        ensures HoldsComplete(Recovered(SavedUpTo(vol, path, version, k), path), path)
      {
        CrashLeavesAVersion(vol, path, version, k);
      }
    } else {
      assert Recovered(SavedUpTo(vol, path, version, 1), path)[path] == if path in vol then vol[path] else Torn;
    }
  }

  /** One save of a run: the version and where it is cut (4 is not cut). */
  datatype Save = Save(version: nat, steps: Steps)

  type Steps = k: nat | k <= STEPS

  /** Saves one after another, each followed by a recovery. */
  function AfterSaves(vol: Volume, path: string, saves: seq<Save>): Volume {
    if saves == [] then vol
    else
      var s := saves[|saves| - 1];
      Recovered(SavedUpTo(AfterSaves(vol, path, saves[..|saves| - 1]), path, s.version, s.steps), path)
  }

  /** The last version whose save got as far as removing the old file. */
  function Current(start: nat, saves: seq<Save>): nat {
    if saves == [] then start
    else if saves[|saves| - 1].steps > 2 then saves[|saves| - 1].version
    else Current(start, saves[..|saves| - 1])
  }

  /** Through any run of saves cut by crashes, the file is always a complete version:
      the last one that was being published when the old file was gone. */
  lemma {:induction false} FileIsAlwaysComplete(vol: Volume, path: string, saves: seq<Save>)
    requires HoldsComplete(vol, path)
    ensures var r := AfterSaves(vol, path, saves);
      path in r && r[path] == Complete(Current(vol[path].version, saves))
  {
    if saves != [] {
      var init, s := saves[..|saves| - 1], saves[|saves| - 1];
      FileIsAlwaysComplete(vol, path, init);
      CrashLeavesAVersion(AfterSaves(vol, path, init), path, s.version, s.steps);
    }
  }

  /** A first save, cut while the part was being written: recovery publishes it torn. */
  lemma {:induction false} FirstSaveCanTear()
    ensures Recovered(SavedUpTo(map[], "c", 1, 1), "c") == map["c" := Torn]
  {
    assert Write(map[], "c", Torn) == map[PartPath("c") := Torn];
  }

  /** A publish answers true if and only if there is a part, an old file can be removed,
      and the rename succeeds; then the file is the part, and the part is gone. */
  lemma {:induction false} PublishedExactlyWhen(vol: Volume, path: string, removeOk: bool, renameOk: bool)
    ensures var part, (after, ok) := PartPath(path), Published(vol, path, removeOk, renameOk);
      && (ok <==> part in vol && (path in vol ==> removeOk) && renameOk)
      && (ok ==> after == (vol - {part})[path := vol[part]])
  {
  }

  // ----- A publish that answers false

  /** Two files never share a part. */
  lemma {:induction false} PartPathInjective(a: string, b: string)
    ensures PartPath(a) == PartPath(b) <==> a == b
    ensures PartPath(a) == a + ".part"
  {
    var s, t := PartPath(a), PartPath(b);
    assert s[..|s| - 5] == a && t[..|t| - 5] == b;
  }

  /** A refused publish leaves the volume untouched if and only if it did not get past
      removing an old file: there was no part, no old file, or it could not be
      removed. */
  lemma {:induction false} RefusedPublishChangesNothingExactlyWhen(
    vol: Volume, path: string, removeOk: bool, renameOk: bool)
    requires !Published(vol, path, removeOk, renameOk).1
    ensures Published(vol, path, removeOk, renameOk).0 == vol
      <==> !(PartPath(path) in vol && path in vol && removeOk)
    ensures Published(vol, path, removeOk, renameOk).0 ==
      if PartPath(path) in vol && removeOk then vol - {path} else vol
  {
  }

  /** A refused rename: the old file is gone, and what the volume held has changed. */
  lemma {:induction false} RefusedRenameLosesTheOldFile()
    ensures var vol: Volume := map["c" := Complete(1), PartPath("c") := Complete(2)];
      && Published(vol, "c", true, false) == (map[PartPath("c") := Complete(2)], false)
      && Published(vol, "c", true, false).0 != vol
  {
    var vol: Volume := map["c" := Complete(1), PartPath("c") := Complete(2)];
    assert "c" in vol && vol - {"c"} == map[PartPath("c") := Complete(2)];
  }

  /** A publish that answers false keeps the part, if there was one, and no other file
      than the old one goes. A recovery then finds the old file if it could not be
      removed, and else the part, if there was one. */
  lemma {:induction false} RefusedPublishIsRecoverable(vol: Volume, path: string, removeOk: bool, renameOk: bool)
    requires !Published(vol, path, removeOk, renameOk).1
    ensures var part, r := PartPath(path), Published(vol, path, removeOk, renameOk).0;
      && (forall f :: f != path ==> (f in r <==> f in vol) && (f in vol ==> r[f] == vol[f]))
      && (path in r <==> path in vol && (part in vol ==> !removeOk))
      && (path in Recovered(r, path) <==> path in vol || part in vol)
      && (path in Recovered(r, path) ==>
            Recovered(r, path)[path] == if path in r then vol[path] else vol[part])
  {
  }
}
