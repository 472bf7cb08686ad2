/** Applying a patch to the workspace and rolling it back (src/fs.ts).
    SHA-256 is the parameter `hash`; path and binary-content checks have already passed. */
module Workspace {
  import opened AtomicWrites

  datatype Action = Create | Modify | Delete

  datatype PatchFile = PatchFile(path: Path, action: Action, afterContent: string)

  datatype SnapshotFile = SnapshotFile(path: Path, beforeContent: string, beforeHash: string)

  /** A missing file reads as the empty text. */
  function View(files: Files, p: Path): string {
    if p in files then files[p] else ""
  }

  predicate SameView(a: Files, b: Files, p: Path) {
    View(a, p) == View(b, p)
  }

  /** The files after one entry of a proposal, and after all of them in order. */
  function Patched(files: Files, pf: PatchFile): Files {
    if pf.action.Delete? then files - {pf.path} else files[pf.path := pf.afterContent]
  }

  function AllPatched(files: Files, pfs: seq<PatchFile>): Files {
    if pfs == [] then files else Patched(AllPatched(files, pfs[..|pfs| - 1]), pfs[|pfs| - 1])
  }

  function Paths(pfs: seq<PatchFile>): set<Path> {
    set i | 0 <= i < |pfs| :: pfs[i].path
  }

  function PathList(pfs: seq<PatchFile>): seq<Path> {
    seq(|pfs|, i requires 0 <= i < |pfs| => pfs[i].path)
  }

  /** One temp name an entry; none names an entry's own file or a file that exists. */
  predicate TempsApart(files: Files, targets: set<Path>, temps: seq<Path>) {
    forall i | 0 <= i < |temps| :: temps[i] !in targets && temps[i] !in files
  }

  ghost predicate HashesOf(hashes: map<Path, string>, files: Files, paths: set<Path>, hash: string -> string) {
    hashes.Keys == paths && forall p | p in paths :: hashes[p] == hash(View(files, p))
  }

  predicate DistinctFiles(snapshot: seq<SnapshotFile>) {
    forall i, j | 0 <= i < j < |snapshot| :: snapshot[i].path != snapshot[j].path
  }

  function SnapshotPaths(snapshot: seq<SnapshotFile>): set<Path> {
    set i | 0 <= i < |snapshot| :: snapshot[i].path
  }

  /** A snapshot of the given files: each path once, with its content and hash. */
  ghost predicate SnapshotOf(snapshot: seq<SnapshotFile>, files: Files, paths: set<Path>, hash: string -> string) {
    && DistinctFiles(snapshot) && SnapshotPaths(snapshot) == paths
    && forall i | 0 <= i < |snapshot| ::
         && snapshot[i].beforeContent == View(files, snapshot[i].path)
         && snapshot[i].beforeHash == hash(snapshot[i].beforeContent)
  }

  function Snapshot(order: seq<Path>, contents: map<Path, string>, hash: string -> string)
    : (snapshot: seq<SnapshotFile>)
    requires Distinct(order) && TempSet(order) <= contents.Keys
    ensures |snapshot| == |order|
    ensures forall i | 0 <= i < |snapshot| ::
              snapshot[i] == SnapshotFile(order[i], contents[order[i]], hash(contents[order[i]]))
    ensures DistinctFiles(snapshot) && SnapshotPaths(snapshot) == TempSet(order)
  {
    assert forall i | 0 <= i < |order| :: order[i] in TempSet(order);
    var snapshot := seq(|order|, i requires 0 <= i < |order| && order[i] in contents =>
      SnapshotFile(order[i], contents[order[i]], hash(contents[order[i]])));
    assert SnapshotPaths(snapshot) == TempSet(order) by {
      forall p | p in TempSet(order) ensures p in SnapshotPaths(snapshot) {
        var i :| 0 <= i < |order| && order[i] == p;
        assert snapshot[i].path == p;
      }
    }
    snapshot
  }

  lemma PathsAppend(pfs: seq<PatchFile>, pf: PatchFile)
    ensures Paths(pfs + [pf]) == Paths(pfs) + {pf.path}
  {
    var all := pfs + [pf];
    forall p | p in Paths(pfs) ensures p in Paths(all) {
      var i :| 0 <= i < |pfs| && pfs[i].path == p;
      assert all[i].path == p;
    }
    assert all[|pfs|].path == pf.path;
  }

  lemma {:induction false} PatchedElsewhere(files: Files, pfs: seq<PatchFile>)
    ensures Outside(AllPatched(files, pfs), Paths(pfs)) == Outside(files, Paths(pfs))
  {
    if pfs != [] {
      var front, last := pfs[..|pfs| - 1], pfs[|pfs| - 1];
      PatchedElsewhere(files, front);
      assert pfs == front + [last];
      PathsAppend(front, last);
      OutsideMore(AllPatched(files, front), files, Paths(front), Paths(pfs));
      assert Outside(AllPatched(files, pfs), Paths(pfs)) == Outside(AllPatched(files, front), Paths(pfs));
    }
  }

  /** Whatever the order and repetitions of the entries: the last one for a path decides, by deleting the file or giving
      it its content. */
  lemma {:induction false} AllPatchedMeaning(files: Files, pfs: seq<PatchFile>)
    ensures forall i | 0 <= i < |pfs| && (forall j | i < j < |pfs| :: pfs[j].path != pfs[i].path) ::
              var after := AllPatched(files, pfs);
              if pfs[i].action == Delete then pfs[i].path !in after
              else pfs[i].path in after && after[pfs[i].path] == pfs[i].afterContent
    ensures Outside(AllPatched(files, pfs), Paths(pfs)) == Outside(files, Paths(pfs))
  {
    PatchedElsewhere(files, pfs);
    if pfs != [] {
      var front := pfs[..|pfs| - 1];
      AllPatchedMeaning(files, front);
      forall i | 0 <= i < |front| && (forall j | i < j < |pfs| :: pfs[j].path != pfs[i].path)
        ensures forall j | i < j < |front| :: front[j].path != front[i].path
        ensures pfs[|pfs| - 1].path != pfs[i].path
      {
      }
    }
  }

  lemma PathsPrefix(pfs: seq<PatchFile>, n: nat)
    requires n < |pfs|
    ensures Paths(pfs[..n]) <= Paths(pfs) && pfs[n].path in Paths(pfs)
  {
  }

  lemma PathListSet(pfs: seq<PatchFile>)
    ensures TempSet(PathList(pfs)) == Paths(pfs)
  {
    forall p | p in Paths(pfs) ensures p in PathList(pfs) {
      var i :| 0 <= i < |pfs| && pfs[i].path == p;
      assert PathList(pfs)[i] == p;
    }
  }

  lemma TempStillApart(start: Files, pfs: seq<PatchFile>, n: nat, temps: seq<Path>)
    requires n < |pfs| == |temps| && TempsApart(start, Paths(pfs), temps)
    ensures temps[n] !in AllPatched(start, pfs[..n]) && temps[n] != pfs[n].path
  {
    PatchedElsewhere(start, pfs[..n]);
    PathsPrefix(pfs, n);
    OutsideAt(AllPatched(start, pfs[..n]), start, Paths(pfs[..n]), temps[n]);
  }

  /** Why a failed entry followed by the restoring writes leaves every view as it was. */
  lemma FailureUndone(start: Files, failed: Files, restored: Files, pfs: seq<PatchFile>, n: nat, temps: seq<Path>)
    requires n < |pfs| == |temps| && TempsApart(start, Paths(pfs), temps)
    requires Outside(failed, {temps[n]}) == AllPatched(start, pfs[..n])
    requires Outside(restored, Paths(pfs[..n])) == Outside(failed, Paths(pfs[..n]))
    ensures Outside(restored, Paths(pfs) + TempSet(temps)) == Outside(start, Paths(pfs) + TempSet(temps))
    ensures var hidden := Paths(pfs[..n]) + {temps[n]}; Outside(restored, hidden) == Outside(start, hidden)
    ensures (forall p | p in Paths(pfs[..n]) :: p in restored && restored[p] == View(start, p)) ==>
              forall p | p !in TempSet(temps) :: SameView(restored, start, p)
    ensures temps[n] !in failed ==> forall p | p in TempSet(temps) :: p !in restored
  {
    var changed := Paths(pfs[..n]);
    PatchedElsewhere(start, pfs[..n]);
    PathsPrefix(pfs, n);
    var hidden := changed + {temps[n]};
    OutsideMore(restored, failed, changed, hidden);
    OutsideMore(failed, AllPatched(start, pfs[..n]), {temps[n]}, hidden) by {
      TempStillApart(start, pfs, n, temps);
      assert Outside(AllPatched(start, pfs[..n]), {temps[n]}) == AllPatched(start, pfs[..n]);
    }
    OutsideMore(AllPatched(start, pfs[..n]), start, changed, hidden);
    assert Outside(restored, hidden) == Outside(start, hidden);
    OutsideMore(restored, start, hidden, Paths(pfs) + TempSet(temps));
    forall p | p !in TempSet(temps) && p !in changed ensures SameView(restored, start, p) {
      OutsideAt(restored, start, hidden, p);
    }
    if temps[n] !in failed {
      forall p | p in TempSet(temps) ensures p !in restored {
        if p == temps[n] {
          OutsideAt(restored, failed, changed, p);
        } else {
          OutsideAt(restored, start, hidden, p);
        }
      }
    }
  }

  /** The restoring writes leave a file, if only an empty one, at every path applied so far. */
  lemma FilesUndone(start: Files, restored: Files, applied: set<Path>, tmp: Path)
    requires tmp !in start && tmp !in restored
    requires Outside(restored, applied + {tmp}) == Outside(start, applied + {tmp})
    requires forall p | p in applied :: p in restored && restored[p] == View(start, p)
    ensures restored == start <==> applied <= start.Keys
  {
    if applied <= start.Keys {
      forall p ensures (p in restored <==> p in start) && (p in start ==> restored[p] == start[p]) {
        if p !in applied && p != tmp {
          OutsideAt(restored, start, applied + {tmp}, p);
        }
      }
    }
  }

  /** Hashes and snapshot of a pre-state that was read completely. */
  lemma PreStateMeaning(files: Files, paths: set<Path>, order: seq<Path>, contents: map<Path, string>,
                        hash: string -> string)
    requires contents.Keys == paths && forall p | p in contents :: contents[p] == View(files, p)
    requires Distinct(order) && TempSet(order) == paths
    ensures HashesOf(map p | p in contents :: hash(contents[p]), files, paths, hash)
    ensures SnapshotOf(Snapshot(order, contents, hash), files, paths, hash)
  {
    assert forall i | 0 <= i < |order| :: order[i] in TempSet(order);
  }

  // ----- Applying -----

  datatype ApplyOutcome =
    | Applied(filesModified: seq<Path>, prePatchHashes: map<Path, string>, postPatchHashes: map<Path, string>,
              appliedFiles: seq<Path>, snapshotFiles: seq<SnapshotFile>)
    | ApplyFailed(at: Path, rolledBack: nat)

  /** The first phase reads every file before any is written. Repeated paths read alike. */
  method ReadPreState(disk: Disk, pfs: seq<PatchFile>)
    returns (order: seq<Path>, preContents: map<Path, string>)
    ensures preContents.Keys == Paths(pfs)
    ensures forall p | p in preContents :: preContents[p] == View(disk.files, p)
    ensures Distinct(order) && TempSet(order) == Paths(pfs)
  {
    order, preContents := [], map[];
    for n := 0 to |pfs|
      invariant preContents.Keys == Paths(pfs[..n])
      invariant forall p | p in preContents :: preContents[p] == View(disk.files, p)
      invariant Distinct(order) && TempSet(order) == Paths(pfs[..n])
    {
      var p := pfs[n].path;
      assert Paths(pfs[..n + 1]) == Paths(pfs[..n]) + {p} by {
        assert pfs[..n + 1] == pfs[..n] + [pfs[n]];
        PathsAppend(pfs[..n], pfs[n]);
      }
      if p !in preContents {
        assert p !in order by { assert p !in TempSet(order); }
        assert TempSet(order + [p]) == TempSet(order) + {p};
        order := order + [p];
      }
      preContents := preContents[p := View(disk.files, p)];
    }
    assert pfs[..|pfs|] == pfs;
  }

  /** The guarded part of one entry: directory, then unlink or atomic write, then read back. */
  method ApplyEntry(disk: Disk, pf: PatchFile, tmp: Path, hash: string -> string) returns (ok: bool, postHash: string)
    requires disk.Valid() && tmp != pf.path && tmp !in disk.files
    modifies disk
    ensures disk.Valid() && disk.overwriteFaults == old(disk.overwriteFaults)
    ensures disk.unlinkFaults >= old(disk.unlinkFaults) && disk.otherFaults >= old(disk.otherFaults)
    ensures ok ==> disk.files == Patched(old(disk.files), pf) && postHash == hash(View(disk.files, pf.path))
    ensures !ok ==> Outside(disk.files, {tmp}) == old(disk.files)
    ensures disk.unlinkFaults == old(disk.unlinkFaults) ==> tmp !in disk.files
    ensures ok <==> disk.Faults() == old(disk.Faults()) && (pf.action.Delete? ==> pf.path in old(disk.files))
  {
    postHash := "";
    ok := disk.Prepare();
    if !ok { return; }
    if pf.action.Delete? {
      ok := disk.Unlink(pf.path);
      if ok { postHash := hash(""); }
    } else {
      var result := AtomicWriteFile(disk, pf.path, pf.afterContent, tmp);
      ok := result.success;
      if ok { postHash := hash(View(disk.files, pf.path)); }
    }
  }

  /** Every entry that deletes finds its file there when its turn comes. */
  ghost predicate DeletesPresent(files: Files, pfs: seq<PatchFile>, n: nat) {
    forall i | 0 <= i < n && i < |pfs| && pfs[i].action.Delete? :: pfs[i].path in AllPatched(files, pfs[..i])
  }

  lemma EntriesStart(start: Files, pfs: seq<PatchFile>, hash: string -> string)
    ensures AllPatched(start, pfs[..0]) == start && PathList(pfs[..0]) == [] && DeletesPresent(start, pfs, 0)
    ensures HashesOf(map[], start, Paths(pfs[..0]), hash)
  {
  }

  lemma HashesMore(files: Files, pf: PatchFile, hashes: map<Path, string>, paths: set<Path>, hash: string -> string)
    requires HashesOf(hashes, files, paths, hash)
    ensures var after := Patched(files, pf);
            HashesOf(hashes[pf.path := hash(View(after, pf.path))], after, paths + {pf.path}, hash)
  {
  }

  lemma EntryApplied(start: Files, pfs: seq<PatchFile>, n: nat, hashes: map<Path, string>, postHash: string,
                     hash: string -> string)
    requires n < |pfs| && HashesOf(hashes, AllPatched(start, pfs[..n]), Paths(pfs[..n]), hash)
    requires postHash == hash(View(Patched(AllPatched(start, pfs[..n]), pfs[n]), pfs[n].path))
    ensures AllPatched(start, pfs[..n + 1]) == Patched(AllPatched(start, pfs[..n]), pfs[n])
    ensures PathList(pfs[..n + 1]) == PathList(pfs[..n]) + [pfs[n].path]
    ensures HashesOf(hashes[pfs[n].path := postHash], AllPatched(start, pfs[..n + 1]), Paths(pfs[..n + 1]), hash)
  {
    hide HashesOf, Paths, Patched;
    assert pfs[..n + 1] == pfs[..n] + [pfs[n]];
    PathsAppend(pfs[..n], pfs[n]);
    HashesMore(AllPatched(start, pfs[..n]), pfs[n], hashes, Paths(pfs[..n]), hash);
  }

  lemma DeletesStep(start: Files, pfs: seq<PatchFile>, n: nat)
    requires n < |pfs| && DeletesPresent(start, pfs, n)
    ensures DeletesPresent(start, pfs, n + 1)
       <==> (pfs[n].action.Delete? ==> pfs[n].path in AllPatched(start, pfs[..n]))
    ensures DeletesPresent(start, pfs, |pfs|) ==> DeletesPresent(start, pfs, n + 1)
  {
  }

  /** The entries in order, up to the first that fails. */
  method ApplyEntries(disk: Disk, pfs: seq<PatchFile>, temps: seq<Path>, hash: string -> string)
    returns (done: nat, postPatchHashes: map<Path, string>, appliedFiles: seq<Path>)
    requires disk.Valid() && |temps| == |pfs| && Distinct(temps) && TempsApart(disk.files, Paths(pfs), temps)
    modifies disk
    ensures disk.Valid() && disk.overwriteFaults == old(disk.overwriteFaults)
    ensures disk.unlinkFaults >= old(disk.unlinkFaults) && disk.otherFaults >= old(disk.otherFaults)
    ensures done == |pfs| <==> disk.Faults() == old(disk.Faults()) && DeletesPresent(old(disk.files), pfs, |pfs|)
    ensures done <= |pfs| && appliedFiles == PathList(pfs[..done])
    ensures HashesOf(postPatchHashes, AllPatched(old(disk.files), pfs[..done]), Paths(pfs[..done]), hash)
    ensures done == |pfs| ==> disk.files == AllPatched(old(disk.files), pfs)
    ensures done < |pfs| ==> Outside(disk.files, {temps[done]}) == AllPatched(old(disk.files), pfs[..done])
    ensures done < |pfs| && disk.unlinkFaults == old(disk.unlinkFaults) ==> temps[done] !in disk.files
  {
    hide TempsApart, Outside, Paths, PathList, HashesOf, DeletesPresent, AllPatched, Patched, Distinct;
    postPatchHashes, appliedFiles := map[], [];
    EntriesStart(disk.files, pfs, hash);
    ghost var start := disk.files;
    for n := 0 to |pfs|
      invariant disk.Valid() && disk.overwriteFaults == old(disk.overwriteFaults)
      invariant disk.unlinkFaults == old(disk.unlinkFaults) && disk.otherFaults == old(disk.otherFaults)
      invariant DeletesPresent(start, pfs, n)
      invariant disk.files == AllPatched(start, pfs[..n])
      invariant appliedFiles == PathList(pfs[..n])
      invariant HashesOf(postPatchHashes, disk.files, Paths(pfs[..n]), hash)
    {
      TempStillApart(start, pfs, n, temps);
      var ok, postHash := ApplyEntry(disk, pfs[n], temps[n], hash);
      DeletesStep(start, pfs, n);
      if !ok {
        return n, postPatchHashes, appliedFiles;
      }
      EntryApplied(start, pfs, n, postPatchHashes, postHash, hash);
      postPatchHashes := postPatchHashes[pfs[n].path := postHash];
      appliedFiles := appliedFiles + [pfs[n].path];
    }
    assert pfs[..|pfs|] == pfs;
    return |pfs|, postPatchHashes, appliedFiles;
  }

  /** The applied paths among the first n whose file does not hold its recorded content. */
  ghost function Unrestored(files: Files, applied: seq<Path>, preContents: map<Path, string>, n: nat): set<Path>
    requires forall p | p in applied :: p in preContents
  {
    set i | 0 <= i < n && i < |applied| && !(applied[i] in files && files[applied[i]] == preContents[applied[i]])
      :: applied[i]
  }

  lemma {:induction false} Subset<T>(a: set<T>, b: set<T>)
    requires a <= b
    ensures |a| <= |b|
  {
    if x :| x in a {
      Subset(a - {x}, b - {x});
    }
  }

  lemma Fewer(big: set<Path>, small: set<Path>, p: Path)
    requires big <= small + {p}
    ensures |big| <= |small| + 1
    ensures p !in big ==> |big| <= |small|
  {
    Subset(big, small + {p});
    if p !in big { Subset(big, small); }
  }

  lemma RestoreOne(before: Files, after: Files, applied: seq<Path>, preContents: map<Path, string>, n: nat)
    requires n < |applied| && forall p | p in applied :: p in preContents
    requires Outside(after, {applied[n]}) == Outside(before, {applied[n]})
    ensures |Unrestored(after, applied, preContents, n + 1)| <= |Unrestored(before, applied, preContents, n)| + 1
    ensures applied[n] in after && after[applied[n]] == preContents[applied[n]] ==>
              |Unrestored(after, applied, preContents, n + 1)| <= |Unrestored(before, applied, preContents, n)|
  {
    var small, big := Unrestored(before, applied, preContents, n), Unrestored(after, applied, preContents, n + 1);
    forall p | p in big ensures p in small || p == applied[n] {
      var i :| 0 <= i < n + 1 && applied[i] == p && !(p in after && after[p] == preContents[p]);
      if p != applied[n] {
        OutsideAt(after, before, {applied[n]}, p);
        assert applied[i] in small;
      }
    }
    Fewer(big, small, applied[n]);
  }

  /** After a failure: writes back every file already applied, going on after a failed write, so that each fault costs
      at most one path. */
  method Restore(disk: Disk, applied: seq<Path>, preContents: map<Path, string>)
    requires disk.Valid() && forall p | p in applied :: p in preContents
    modifies disk`files, disk`trace, disk`overwriteFaults
    ensures disk.Valid() && disk.overwriteFaults >= old(disk.overwriteFaults)
    ensures Outside(disk.files, TempSet(applied)) == Outside(old(disk.files), TempSet(applied))
    ensures disk.overwriteFaults == old(disk.overwriteFaults) ==>
              forall p | p in applied :: p in disk.files && disk.files[p] == preContents[p]
    ensures |Unrestored(disk.files, applied, preContents, |applied|)|
         <= disk.overwriteFaults - old(disk.overwriteFaults)
  {
    for n := 0 to |applied|
      invariant disk.Valid() && disk.overwriteFaults >= old(disk.overwriteFaults)
      invariant Outside(disk.files, TempSet(applied)) == Outside(old(disk.files), TempSet(applied))
      invariant disk.overwriteFaults == old(disk.overwriteFaults) ==>
                  forall i | 0 <= i < n :: applied[i] in disk.files && disk.files[applied[i]] == preContents[applied[i]]
      invariant |Unrestored(disk.files, applied, preContents, n)| <= disk.overwriteFaults - old(disk.overwriteFaults)
    {
      ghost var files0 := disk.files;
      var _ := disk.Overwrite(applied[n], preContents[applied[n]]);
      OutsideMore(disk.files, files0, {applied[n]}, TempSet(applied));
      RestoreOne(files0, disk.files, applied, preContents, n);
    }
  }

  ghost function ViewsLost(start: Files, files: Files, paths: set<Path>): set<Path> {
    set p | p in paths && !SameView(files, start, p)
  }

  lemma LostAreUnrestored(start: Files, files: Files, pfs: seq<PatchFile>, n: nat, temps: seq<Path>,
                          preContents: map<Path, string>)
    requires n < |pfs| == |temps| && TempsApart(start, Paths(pfs), temps) && preContents.Keys == Paths(pfs)
    requires forall p | p in preContents :: preContents[p] == View(start, p)
    requires var hidden := Paths(pfs[..n]) + {temps[n]}; Outside(files, hidden) == Outside(start, hidden)
    ensures var applied := PathList(pfs[..n]);
            && (forall p | p in applied :: p in preContents)
            && |ViewsLost(start, files, Paths(pfs))| <= |Unrestored(files, applied, preContents, n)|
  {
    var applied := PathList(pfs[..n]);
    PathsPrefix(pfs, n);
    PathListSet(pfs[..n]);
    assert forall p | p in applied :: p in TempSet(applied);
    forall p | p in ViewsLost(start, files, Paths(pfs)) ensures p in Unrestored(files, applied, preContents, n) {
      if p in Paths(pfs[..n]) {
        assert p in TempSet(applied);
        var i :| 0 <= i < |applied| && applied[i] == p;
      } else {
        OutsideAt(files, start, Paths(pfs[..n]) + {temps[n]}, p);
      }
    }
    Subset(ViewsLost(start, files, Paths(pfs)), Unrestored(files, applied, preContents, n));
  }

  method Abort(disk: Disk, pfs: seq<PatchFile>, temps: seq<Path>, done: nat, appliedFiles: seq<Path>,
               preContents: map<Path, string>, ghost start: Files)
    requires disk.Valid() && done < |pfs| == |temps| && TempsApart(start, Paths(pfs), temps)
    requires appliedFiles == PathList(pfs[..done]) && preContents.Keys == Paths(pfs)
    requires forall p | p in preContents :: preContents[p] == View(start, p)
    requires Outside(disk.files, {temps[done]}) == AllPatched(start, pfs[..done])
    modifies disk`files, disk`trace, disk`overwriteFaults
    ensures disk.Valid() && disk.overwriteFaults >= old(disk.overwriteFaults)
    ensures disk.overwriteFaults == old(disk.overwriteFaults) ==>
              forall p | p !in TempSet(temps) :: SameView(disk.files, start, p)
    ensures |ViewsLost(start, disk.files, Paths(pfs))| <= disk.overwriteFaults - old(disk.overwriteFaults)
    ensures temps[done] !in old(disk.files) ==> forall p | p in TempSet(temps) :: p !in disk.files
    ensures disk.overwriteFaults == old(disk.overwriteFaults) && temps[done] !in old(disk.files) ==>
              (disk.files == start <==> Paths(pfs[..done]) <= start.Keys)
    ensures Outside(disk.files, Paths(pfs) + TempSet(temps)) == Outside(start, Paths(pfs) + TempSet(temps))
  {
    PathsPrefix(pfs, done);
    PathListSet(pfs[..done]);
    assert forall p | p in Paths(pfs[..done]) :: p in TempSet(appliedFiles);
    Restore(disk, appliedFiles, preContents);
    FailureUndone(start, old(disk.files), disk.files, pfs, done, temps);
    LostAreUnrestored(start, disk.files, pfs, done, temps, preContents);
    if disk.overwriteFaults == old(disk.overwriteFaults) && temps[done] !in old(disk.files) {
      FilesUndone(start, disk.files, Paths(pfs[..done]), temps[done]);
    }
  }

  /** All or nothing, up to failures of the restoring writes. */
  method ApplyPatch(disk: Disk, pfs: seq<PatchFile>, temps: seq<Path>, hash: string -> string)
    returns (outcome: ApplyOutcome)
    requires disk.Valid() && |temps| == |pfs| && Distinct(temps) && TempsApart(disk.files, Paths(pfs), temps)
    modifies disk
    ensures disk.Valid()
    ensures outcome.Applied? ==>
              && disk.files == AllPatched(old(disk.files), pfs)
              && outcome.filesModified == outcome.appliedFiles == PathList(pfs)
              && HashesOf(outcome.prePatchHashes, old(disk.files), Paths(pfs), hash)
              && HashesOf(outcome.postPatchHashes, disk.files, Paths(pfs), hash)
              && SnapshotOf(outcome.snapshotFiles, old(disk.files), Paths(pfs), hash)
    ensures disk.unlinkFaults >= old(disk.unlinkFaults) && disk.overwriteFaults >= old(disk.overwriteFaults)
    ensures disk.otherFaults >= old(disk.otherFaults)
    ensures outcome.Applied? <==> disk.Faults() == old(disk.Faults()) && DeletesPresent(old(disk.files), pfs, |pfs|)
    ensures outcome.ApplyFailed? ==> outcome.rolledBack < |pfs| && pfs[outcome.rolledBack].path == outcome.at
    ensures outcome.ApplyFailed? && disk.overwriteFaults == old(disk.overwriteFaults) ==>
              forall p | p !in TempSet(temps) :: SameView(disk.files, old(disk.files), p)
    ensures outcome.ApplyFailed? ==>
              |ViewsLost(old(disk.files), disk.files, Paths(pfs))| <= disk.overwriteFaults - old(disk.overwriteFaults)
    ensures outcome.ApplyFailed? && disk.unlinkFaults == old(disk.unlinkFaults) ==>
              forall p | p in TempSet(temps) :: p !in disk.files
    ensures outcome.ApplyFailed? && disk.overwriteFaults == old(disk.overwriteFaults)
            && disk.unlinkFaults == old(disk.unlinkFaults) ==>
              (disk.files == old(disk.files) <==> Paths(pfs[..outcome.rolledBack]) <= old(disk.files).Keys)
    ensures Outside(disk.files, Paths(pfs) + TempSet(temps)) == Outside(old(disk.files), Paths(pfs) + TempSet(temps))
  {
    hide TempsApart, Paths, AllPatched, DeletesPresent, Distinct, Outside, ViewsLost, SameView, HashesOf, SnapshotOf;
    var order, preContents := ReadPreState(disk, pfs);
    PreStateMeaning(disk.files, Paths(pfs), order, preContents, hash);
    var prePatchHashes := map p | p in preContents :: hash(preContents[p]);
    ghost var start := disk.files;
    var done, postPatchHashes, appliedFiles := ApplyEntries(disk, pfs, temps, hash);
    PatchedElsewhere(start, pfs[..done]);
    if done < |pfs| {
      Abort(disk, pfs, temps, done, appliedFiles, preContents, start);
      return ApplyFailed(pfs[done].path, |appliedFiles|);
    }
    assert pfs[..|pfs|] == pfs;
    OutsideMore(disk.files, start, Paths(pfs), Paths(pfs) + TempSet(temps));
    return Applied(PathList(pfs), prePatchHashes, postPatchHashes, appliedFiles, Snapshot(order, preContents, hash));
  }

  // ----- Rollback -----

  datatype Warning = HashMismatch(path: Path, expected: string, got: string) | RestoreFailed(path: Path)

  datatype RollbackResult = RollbackResult(
    success: bool, filesRestored: seq<Path>, hashVerified: bool, warnings: seq<Warning>)

  function SnapshotPathList(snapshot: seq<SnapshotFile>): seq<Path> {
    seq(|snapshot|, i requires 0 <= i < |snapshot| => snapshot[i].path)
  }

  predicate HashesMatch(snapshot: seq<SnapshotFile>, hash: string -> string) {
    forall i | 0 <= i < |snapshot| :: snapshot[i].beforeHash == hash(snapshot[i].beforeContent)
  }

  /** No later of the first n entries has the path of entry i. */
  predicate LastAmong(snapshot: seq<SnapshotFile>, i: nat, n: nat)
    requires i < |snapshot|
  {
    forall j | i < j < n && j < |snapshot| :: snapshot[j].path != snapshot[i].path
  }

  /** The file reads as recorded; one recorded as empty is absent. */
  predicate RestoredFile(files: Files, file: SnapshotFile) {
    View(files, file.path) == file.beforeContent && (file.path in files <==> file.beforeContent != "")
  }

  /** The first n entries are restored, the last one where they repeat a path. */
  ghost predicate Restored(files: Files, snapshot: seq<SnapshotFile>, n: nat) {
    forall i: nat | i < n && i < |snapshot| && LastAmong(snapshot, i, n) :: RestoredFile(files, snapshot[i])
  }

  ghost predicate ViewsRestored(files: Files, snapshot: seq<SnapshotFile>) {
    forall i: nat | i < |snapshot| && LastAmong(snapshot, i, |snapshot|) ::
      View(files, snapshot[i].path) == snapshot[i].beforeContent
  }

  /** The same for the recorded hashes. */
  ghost predicate HashRestored(files: Files, snapshot: seq<SnapshotFile>, hash: string -> string, n: nat) {
    forall i: nat | i < n && i < |snapshot| && LastAmong(snapshot, i, n) ::
      hash(View(files, snapshot[i].path)) == snapshot[i].beforeHash
  }

  /** The guarded part of one file: unlink or atomic write, then read back and hash. */
  method RestoreFile(disk: Disk, file: SnapshotFile, tmp: Path, hash: string -> string)
    returns (threw: bool, restoredHash: string)
    requires disk.Valid() && tmp != file.path
    modifies disk
    ensures disk.Valid() && disk.Faults() >= old(disk.Faults())
    ensures Outside(disk.files, {file.path, tmp}) == Outside(old(disk.files), {file.path, tmp})
    ensures !threw ==> restoredHash == hash(View(disk.files, file.path))
    ensures disk.Faults() == old(disk.Faults()) ==> !threw && RestoredFile(disk.files, file)
    ensures disk.Faults() == old(disk.Faults()) && tmp !in old(disk.files) ==> tmp !in disk.files
  {
    threw, restoredHash := false, "";
    if file.beforeContent == "" {
      var _ := disk.Unlink(file.path);
      OutsideMore(disk.files, old(disk.files), {file.path}, {file.path, tmp});
    } else {
      var result := AtomicWriteFile(disk, file.path, file.beforeContent, tmp);
      if !result.success {
        OutsideMore(disk.files, old(disk.files), {tmp}, {file.path, tmp});
        return true, "";
      }
    }
    restoredHash := hash(View(disk.files, file.path));
  }

  lemma SnapshotPathIn(snapshot: seq<SnapshotFile>, n: nat)
    requires n < |snapshot|
    ensures snapshot[n].path in SnapshotPaths(snapshot)
  {
  }

  /** The paths among the first n entries that are not restored, by the last entry for each. */
  ghost function NotRestored(files: Files, snapshot: seq<SnapshotFile>, n: nat): set<Path> {
    set i: nat | i < n && i < |snapshot| && LastAmong(snapshot, i, n) && !RestoredFile(files, snapshot[i])
      :: snapshot[i].path
  }

  lemma RestoreStart(files: Files, snapshot: seq<SnapshotFile>, hash: string -> string)
    ensures Restored(files, snapshot, 0) && HashRestored(files, snapshot, hash, 0)
    ensures |NotRestored(files, snapshot, 0)| == 0 && HashesMatch([], hash)
  {
  }

  /** Restoring one more file keeps what is said of the last entries of the other paths. */
  lemma RestoreStep(before: Files, after: Files, snapshot: seq<SnapshotFile>, n: nat, tmp: Path, hash: string -> string)
    requires n < |snapshot| && tmp !in SnapshotPaths(snapshot)
    requires Outside(after, {snapshot[n].path, tmp}) == Outside(before, {snapshot[n].path, tmp})
    ensures Restored(before, snapshot, n) && RestoredFile(after, snapshot[n]) ==> Restored(after, snapshot, n + 1)
    ensures HashRestored(before, snapshot, hash, n) && hash(View(after, snapshot[n].path)) == snapshot[n].beforeHash ==>
              HashRestored(after, snapshot, hash, n + 1)
  {
    forall i: nat | i < n && LastAmong(snapshot, i, n + 1)
      ensures LastAmong(snapshot, i, n)
      ensures View(after, snapshot[i].path) == View(before, snapshot[i].path)
      ensures snapshot[i].path in after <==> snapshot[i].path in before
    {
      assert snapshot[i].path in SnapshotPaths(snapshot) && snapshot[i].path != snapshot[n].path;
      OutsideAt(after, before, {snapshot[n].path, tmp}, snapshot[i].path);
    }
  }

  lemma HashesMatchStep(files: Files, snapshot: seq<SnapshotFile>, n: nat, hash: string -> string)
    requires n < |snapshot|
    ensures RestoredFile(files, snapshot[n]) ==>
              (HashesMatch(snapshot[..n + 1], hash) <==>
                 HashesMatch(snapshot[..n], hash) && hash(View(files, snapshot[n].path)) == snapshot[n].beforeHash)
  {
    var some, more := snapshot[..n], snapshot[..n + 1];
    assert forall i | 0 <= i < n :: some[i] == more[i];
    assert more[n] == snapshot[n];
  }

  lemma TempsStayApart(before: Files, after: Files, targets: set<Path>, p: Path, temps: seq<Path>, n: nat)
    requires n < |temps| && Outside(after, {p, temps[n]}) == Outside(before, {p, temps[n]}) && p in targets
    requires TempsApart(before, targets, temps) && temps[n] !in after
    ensures TempsApart(after, targets, temps)
  {
    forall i | 0 <= i < |temps| && temps[i] != temps[n] ensures temps[i] !in after {
      OutsideAt(after, before, {p, temps[n]}, temps[i]);
    }
  }

  lemma EarlierKept(before: Files, after: Files, snapshot: seq<SnapshotFile>, n: nat, tmp: Path, i: nat)
    requires i < n < |snapshot| && LastAmong(snapshot, i, n + 1) && tmp !in SnapshotPaths(snapshot)
    requires Outside(after, {snapshot[n].path, tmp}) == Outside(before, {snapshot[n].path, tmp})
    ensures LastAmong(snapshot, i, n) && snapshot[n].path != snapshot[i].path
    ensures RestoredFile(after, snapshot[i]) <==> RestoredFile(before, snapshot[i])
  {
    assert snapshot[n].path != snapshot[i].path && snapshot[i].path in SnapshotPaths(snapshot);
    OutsideAt(after, before, {snapshot[n].path, tmp}, snapshot[i].path);
  }

  lemma NotRestoredStep(before: Files, after: Files, snapshot: seq<SnapshotFile>, n: nat, tmp: Path)
    requires n < |snapshot| && tmp !in SnapshotPaths(snapshot)
    requires Outside(after, {snapshot[n].path, tmp}) == Outside(before, {snapshot[n].path, tmp})
    ensures |NotRestored(after, snapshot, n + 1)| <= |NotRestored(before, snapshot, n)| + 1
    ensures RestoredFile(after, snapshot[n]) ==>
              |NotRestored(after, snapshot, n + 1)| <= |NotRestored(before, snapshot, n)|
  {
    hide RestoredFile, LastAmong, SnapshotPaths, Outside;
    var small, big := NotRestored(before, snapshot, n), NotRestored(after, snapshot, n + 1);
    forall p | p in big
      ensures p in small || p == snapshot[n].path
      ensures RestoredFile(after, snapshot[n]) ==> p != snapshot[n].path
    {
      var i: nat :| && i < n + 1 && LastAmong(snapshot, i, n + 1) && !RestoredFile(after, snapshot[i])
                    && snapshot[i].path == p;
      if i < n {
        EarlierKept(before, after, snapshot, n, tmp, i);
        assert snapshot[i].path in small;
      }
    }
    Fewer(big, small, snapshot[n].path);
  }

  /** A warning is about an entry of the snapshot; a mismatch gives the recorded hash first and then another one. */
  predicate TrueWarning(w: Warning, snapshot: seq<SnapshotFile>) {
    exists i | 0 <= i < |snapshot| ::
      && snapshot[i].path == w.path
      && (w.HashMismatch? ==> w.expected == snapshot[i].beforeHash && w.got != w.expected)
  }

  method RollbackWorkspace(disk: Disk, snapshot: seq<SnapshotFile>, temps: seq<Path>, hash: string -> string)
    returns (result: RollbackResult)
    requires disk.Valid() && |temps| == |snapshot|
    requires TempsApart(disk.files, SnapshotPaths(snapshot), temps)
    modifies disk
    ensures disk.Valid() && disk.Faults() >= old(disk.Faults())
    ensures var hidden := SnapshotPaths(snapshot) + TempSet(temps);
            Outside(disk.files, hidden) == Outside(old(disk.files), hidden)
    ensures |NotRestored(disk.files, snapshot, |snapshot|)| <= disk.Faults() - old(disk.Faults())
    ensures forall i | 0 <= i < |snapshot| ::
              snapshot[i].path in result.filesRestored || RestoreFailed(snapshot[i].path) in result.warnings
    ensures forall w | w in result.warnings :: TrueWarning(w, snapshot)
    ensures result.success <==> result.filesRestored != []
    ensures result.warnings == [] <==> result.hashVerified && |result.filesRestored| == |snapshot|
    ensures result.warnings == [] ==> && HashRestored(disk.files, snapshot, hash, |snapshot|)
                                      && result.filesRestored == SnapshotPathList(snapshot)
    ensures disk.Faults() == old(disk.Faults()) ==>
              && Restored(disk.files, snapshot, |snapshot|) && result.filesRestored == SnapshotPathList(snapshot)
              && (result.hashVerified <==> HashesMatch(snapshot, hash))
              && TempsApart(disk.files, SnapshotPaths(snapshot), temps)
  {
    hide Restored, NotRestored, HashRestored, HashesMatch, RestoredFile, LastAmong, Outside, SnapshotPaths;
    RestoreStart(disk.files, snapshot, hash);
    assert snapshot[..0] == [];
    var filesRestored: seq<Path>, warnings: seq<Warning> := [], [];
    var hashVerified := true;
    ghost var hidden := SnapshotPaths(snapshot) + TempSet(temps);
    for n := 0 to |snapshot|
      invariant disk.Valid() && disk.Faults() >= old(disk.Faults())
      invariant Outside(disk.files, hidden) == Outside(old(disk.files), hidden)
      invariant |NotRestored(disk.files, snapshot, n)| <= disk.Faults() - old(disk.Faults())
      invariant forall i | 0 <= i < n ::
                  snapshot[i].path in filesRestored || RestoreFailed(snapshot[i].path) in warnings
      invariant forall w | w in warnings :: TrueWarning(w, snapshot)
      invariant |filesRestored| <= n && (warnings == [] <==> hashVerified && |filesRestored| == n)
      invariant warnings == [] ==> && HashRestored(disk.files, snapshot, hash, n)
                                   && filesRestored == SnapshotPathList(snapshot)[..n]
      invariant disk.Faults() == old(disk.Faults()) ==>
                  && Restored(disk.files, snapshot, n) && filesRestored == SnapshotPathList(snapshot)[..n]
                  && (hashVerified <==> HashesMatch(snapshot[..n], hash))
                  && TempsApart(disk.files, SnapshotPaths(snapshot), temps)
    {
      var file := snapshot[n];
      ghost var files0, faults0 := disk.files, disk.Faults();
      SnapshotPathIn(snapshot, n);
      assert temps[n] in TempSet(temps);
      var threw, restoredHash := RestoreFile(disk, file, temps[n], hash);
      OutsideMore(disk.files, files0, {file.path, temps[n]}, hidden);
      RestoreStep(files0, disk.files, snapshot, n, temps[n], hash);
      NotRestoredStep(files0, disk.files, snapshot, n, temps[n]);
      HashesMatchStep(disk.files, snapshot, n, hash);
      if disk.Faults() == faults0 && TempsApart(files0, SnapshotPaths(snapshot), temps) {
        TempsStayApart(files0, disk.files, SnapshotPaths(snapshot), file.path, temps, n);
      }
      if threw {
        warnings := warnings + [RestoreFailed(file.path)];
      } else {
        if restoredHash != file.beforeHash {
          hashVerified := false;
          warnings := warnings + [HashMismatch(file.path, file.beforeHash, restoredHash)];
        }
        filesRestored := filesRestored + [file.path];
      }
    }
    assert snapshot[..|snapshot|] == snapshot;
    return RollbackResult(|filesRestored| > 0, filesRestored, hashVerified, warnings);
  }

  ghost predicate Injective(hash: string -> string) {
    forall x, y | hash(x) == hash(y) :: x == y
  }

  /** With an injective digest, matching hashes are matching contents. */
  lemma HashRestoredIsRestored(files: Files, snapshot: seq<SnapshotFile>, hash: string -> string)
    requires Injective(hash) && HashesMatch(snapshot, hash)
    ensures HashRestored(files, snapshot, hash, |snapshot|) <==> ViewsRestored(files, snapshot)
  {
  }

  /** No file the proposal touches was there and empty. */
  predicate NoEmptyFile(files: Files, paths: set<Path>) {
    forall p | p in paths && p in files :: files[p] != ""
  }

  lemma ViewsBack(start: Files, patched: Files, end: Files, pfs: seq<PatchFile>, snapshot: seq<SnapshotFile>,
                  temps: seq<Path>, hash: string -> string)
    requires SnapshotOf(snapshot, start, Paths(pfs), hash) && ViewsRestored(end, snapshot)
    requires Outside(patched, Paths(pfs)) == Outside(start, Paths(pfs))
    requires Outside(end, Paths(pfs) + TempSet(temps)) == Outside(patched, Paths(pfs) + TempSet(temps))
    ensures forall p | p !in TempSet(temps) :: SameView(end, start, p)
  {
    forall p | p !in TempSet(temps) ensures SameView(end, start, p) {
      if p in SnapshotPaths(snapshot) {
        var i :| 0 <= i < |snapshot| && snapshot[i].path == p;
      } else {
        OutsideAt(end, patched, Paths(pfs) + TempSet(temps), p);
        OutsideAt(patched, start, Paths(pfs), p);
      }
    }
  }

  lemma FilesBack(start: Files, patched: Files, end: Files, pfs: seq<PatchFile>, snapshot: seq<SnapshotFile>,
                  temps: seq<Path>, hash: string -> string)
    requires SnapshotOf(snapshot, start, Paths(pfs), hash) && Restored(end, snapshot, |snapshot|)
    requires Outside(patched, Paths(pfs)) == Outside(start, Paths(pfs))
    requires Outside(end, Paths(pfs) + TempSet(temps)) == Outside(patched, Paths(pfs) + TempSet(temps))
    requires TempsApart(start, Paths(pfs), temps) && TempsApart(end, Paths(pfs), temps)
    ensures end == start <==> NoEmptyFile(start, Paths(pfs))
  {
    ViewsBack(start, patched, end, pfs, snapshot, temps, hash);
    forall p | p in Paths(pfs) ensures p in end <==> View(start, p) != "" {
      var i :| 0 <= i < |snapshot| && snapshot[i].path == p;
    }
    forall p | p !in Paths(pfs) ensures p in end <==> p in start {
      if p !in TempSet(temps) {
        OutsideAt(end, patched, Paths(pfs) + TempSet(temps), p);
        OutsideAt(patched, start, Paths(pfs), p);
      }
    }
    if NoEmptyFile(start, Paths(pfs)) {
      forall p | p in start ensures p in end && end[p] == start[p] {
        assert SameView(end, start, p);
      }
      assert end == start;
    }
  }

  /** Applying a proposal and rolling back its snapshot is the identity on views: always when no fault occurs, also if
      the proposal did not apply, and whatever faults the rollback meets when it reports no warning and the digest is
      injective. Without faults it is the identity on files exactly when no touched file was empty, since those are
      deleted, or, for a proposal that failed half way, when every path restored was there. */
  method ApplyThenRollback(disk: Disk, pfs: seq<PatchFile>, temps: seq<Path>, moreTemps: nat -> Path,
                           hash: string -> string)
    returns (outcome: ApplyOutcome, result: RollbackResult)
    requires disk.Valid() && |temps| == |pfs| && Distinct(temps) && TempsApart(disk.files, Paths(pfs), temps)
    requires forall i :: moreTemps(i) !in Paths(pfs) && moreTemps(i) !in disk.files
    modifies disk
    ensures disk.Faults() == old(disk.Faults()) ==>
              && (outcome.Applied? <==> DeletesPresent(old(disk.files), pfs, |pfs|))
              && forall p :: SameView(disk.files, old(disk.files), p)
    ensures outcome.Applied? && disk.Faults() == old(disk.Faults()) ==>
              && result.hashVerified && result.warnings == []
              && (disk.files == old(disk.files) <==> NoEmptyFile(old(disk.files), Paths(pfs)))
    ensures outcome.ApplyFailed? && disk.Faults() == old(disk.Faults()) ==>
              && outcome.rolledBack <= |pfs|
              && (disk.files == old(disk.files) <==> Paths(pfs[..outcome.rolledBack]) <= old(disk.files).Keys)
    ensures outcome.Applied? && Injective(hash) && result.warnings == [] ==>
              forall p | (forall i :: p != moreTemps(i)) :: SameView(disk.files, old(disk.files), p)
  {
    result := RollbackResult(false, [], false, []);
    outcome := ApplyPatch(disk, pfs, temps, hash);
    if outcome.ApplyFailed? {
      assert forall p | p in TempSet(temps) :: p !in old(disk.files);
      return;
    }
    var snapshot := outcome.snapshotFiles;
    var rollbackTemps := seq(|snapshot|, i requires 0 <= i < |snapshot| => moreTemps(i));
    ghost var patched := disk.files;
    PatchedElsewhere(old(disk.files), pfs);
    forall i | 0 <= i < |rollbackTemps| ensures rollbackTemps[i] !in patched {
      OutsideAt(patched, old(disk.files), Paths(pfs), rollbackTemps[i]);
    }
    result := RollbackWorkspace(disk, snapshot, rollbackTemps, hash);
    if disk.Faults() == old(disk.Faults()) {
      FilesBack(old(disk.files), patched, disk.files, pfs, snapshot, rollbackTemps, hash);
      ViewsBack(old(disk.files), patched, disk.files, pfs, snapshot, rollbackTemps, hash);
    } else if Injective(hash) && result.warnings == [] {
      HashRestoredIsRestored(disk.files, snapshot, hash);
      ViewsBack(old(disk.files), patched, disk.files, pfs, snapshot, rollbackTemps, hash);
    }
  }
}
