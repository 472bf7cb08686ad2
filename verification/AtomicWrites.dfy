/** Writing files through a temp file and a rename, on a disk whose operations may fail and whose every
    intermediate state is recorded, so that a crash can be placed anywhere (src/atomic_write.ts). */
module AtomicWrites {
  type Path = string
  type Files = map<Path, string>

  function Outside(files: Files, hidden: set<Path>): Files {
    files - hidden
  }

  /** The states added to the trace all look alike outside the hidden paths. */
  ghost predicate Moments(before: seq<Files>, after: seq<Files>, hidden: set<Path>, view: Files) {
    before <= after && forall i | |before| <= i < |after| :: Outside(after[i], hidden) == view
  }

  /** The disk. Each operation may fail; the ghost counters record which kinds of failure were injected. */
  class Disk {
    var files: Files
    /** Every state the disk has been in, the current one last. */
    ghost var trace: seq<Files>
    ghost var unlinkFaults: nat
    ghost var overwriteFaults: nat
    ghost var otherFaults: nat

    ghost predicate Valid()
      reads this
    {
      trace != [] && trace[|trace| - 1] == files
    }

    ghost function Faults(): nat
      reads this
    {
      unlinkFaults + overwriteFaults + otherFaults
    }

    constructor (files: Files)
      ensures Valid() && this.files == files && trace == [files] && Faults() == 0
    {
      this.files := files;
      trace := [files];
      unlinkFaults, overwriteFaults, otherFaults := 0, 0, 0;
    }

    method Put(after: Files)
      requires Valid()
      modifies `files, `trace
      ensures Valid() && files == after && trace == old(trace) + [after]
    {
      files := after;
      trace := trace + [after];
    }

    /** mkdir, fsync and close: they may fail but do not touch any file. */
    method Prepare() returns (ok: bool)
      requires Valid()
      modifies `otherFaults
      ensures Valid()
      ensures if ok then otherFaults == old(otherFaults) else otherFaults == old(otherFaults) + 1
    {
      ok := *;
      if !ok { otherFaults := otherFaults + 1; }
    }

    /** Opening for writing creates or empties the file. */
    method Open(p: Path) returns (ok: bool)
      requires Valid()
      modifies `files, `trace, `otherFaults
      ensures Valid()
      ensures ok ==> otherFaults == old(otherFaults) && files == old(files)[p := ""] && trace == old(trace) + [files]
      ensures !ok ==> otherFaults == old(otherFaults) + 1 && files == old(files) && trace == old(trace)
    {
      ok := *;
      if ok {
        Put(files[p := ""]);
      } else {
        otherFaults := otherFaults + 1;
      }
    }

    /** The content reaches the open file piece by piece, and may stop at any piece. */
    method Write(p: Path, content: string) returns (ok: bool)
      requires Valid() && p in files && files[p] == ""
      modifies `files, `trace, `otherFaults
      ensures Valid() && p in files && Outside(files, {p}) == old(Outside(files, {p}))
      ensures ok ==> otherFaults == old(otherFaults) && files == old(files)[p := content]
      ensures !ok ==> otherFaults == old(otherFaults) + 1
      ensures Moments(old(trace), trace, {p}, Outside(old(files), {p}))
    {
      var k := 0;
      while k < |content|
        invariant 0 <= k <= |content| && Valid() && otherFaults == old(otherFaults)
        invariant files == old(files)[p := content[..k]]
        invariant Moments(old(trace), trace, {p}, Outside(old(files), {p}))
      {
        var fault := *;
        if fault {
          otherFaults := otherFaults + 1;
          return false;
        }
        k := k + 1;
        Put(files[p := content[..k]]);
      }
      assert content[..|content|] == content;
      return true;
    }

    /** Renaming replaces the target in one step. */
    method Rename(source: Path, target: Path) returns (ok: bool)
      requires Valid() && source in files
      modifies `files, `trace, `otherFaults
      ensures Valid()
      ensures ok ==> && otherFaults == old(otherFaults) && trace == old(trace) + [files]
                     && files == (old(files) - {source})[target := old(files)[source]]
      ensures !ok ==> otherFaults == old(otherFaults) + 1 && files == old(files) && trace == old(trace)
    {
      ok := *;
      if ok {
        Put((files - {source})[target := files[source]]);
      } else {
        otherFaults := otherFaults + 1;
      }
    }

    /** Unlinking a missing file fails without counting as a fault. */
    method Unlink(p: Path) returns (ok: bool)
      requires Valid()
      modifies `files, `trace, `unlinkFaults
      ensures Valid()
      ensures ok ==> && p in old(files) && files == old(files) - {p} && trace == old(trace) + [files]
                     && unlinkFaults == old(unlinkFaults)
      ensures !ok ==> files == old(files) && trace == old(trace)
      ensures !ok ==> unlinkFaults == old(unlinkFaults) + (if p in old(files) then 1 else 0)
    {
      if p !in files {
        return false;
      }
      ok := *;
      if ok {
        Put(files - {p});
      } else {
        unlinkFaults := unlinkFaults + 1;
      }
    }

    /** Overwriting in place is not atomic: a failure leaves any content at all. */
    method Overwrite(p: Path, content: string) returns (ok: bool)
      requires Valid()
      modifies `files, `trace, `overwriteFaults
      ensures Valid() && old(trace) <= trace && Outside(files, {p}) == old(Outside(files, {p}))
      ensures ok ==> overwriteFaults == old(overwriteFaults) && files == old(files)[p := content]
      ensures !ok ==> overwriteFaults == old(overwriteFaults) + 1
    {
      ok := *;
      if ok {
        Put(files[p := content]);
      } else {
        overwriteFaults := overwriteFaults + 1;
        var touched := *;
        if touched {
          var garbage: string := *;
          Put(files[p := garbage]);
        }
      }
    }
  }

  datatype AtomicWriteResult = AtomicWriteResult(success: bool, filePath: Path, tempPath: Path)

  /** In every disk state the call passed through, other files than the temp file and the target are as before, and
      the target holds its complete old content or its complete new content. */
  ghost predicate AllOrNothing(before: seq<Files>, after: seq<Files>, tmp: Path, view: Files, target: Path,
                               content: string)
  {
    && before <= after
    && forall i | |before| <= i < |after| ::
         Outside(after[i], {tmp}) == view || Outside(after[i], {tmp}) == view[target := content]
  }

  /** Creates the directory, then the temp file, fills it and closes it. */
  method WriteTemp(disk: Disk, content: string, tmp: Path) returns (ok: bool)
    requires disk.Valid()
    modifies disk`files, disk`trace, disk`otherFaults
    ensures disk.Valid() && Outside(disk.files, {tmp}) == Outside(old(disk.files), {tmp})
    ensures ok ==> disk.files == old(disk.files)[tmp := content]
    ensures ok <==> disk.otherFaults == old(disk.otherFaults)
    ensures disk.otherFaults >= old(disk.otherFaults)
    ensures Moments(old(disk.trace), disk.trace, {tmp}, Outside(old(disk.files), {tmp}))
  {
    ok := disk.Prepare();
    if !ok { return; }
    ok := disk.Open(tmp);
    if !ok { return; }
    ok := disk.Write(tmp, content);
    if !ok { return; }
    ok := disk.Prepare();
  }

  /** The guarded part of atomicWriteFile: directory, temp file, content, close, rename. */
  method TryAtomicWrite(disk: Disk, target: Path, content: string, tmp: Path) returns (ok: bool)
    requires disk.Valid() && tmp != target
    modifies disk`files, disk`trace, disk`otherFaults
    ensures disk.Valid()
    ensures AllOrNothing(old(disk.trace), disk.trace, tmp, Outside(old(disk.files), {tmp}), target, content)
    ensures ok ==> disk.files == Outside(old(disk.files), {tmp})[target := content]
    ensures ok <==> disk.otherFaults == old(disk.otherFaults)
    ensures disk.otherFaults >= old(disk.otherFaults)
    ensures !ok ==> Outside(disk.files, {tmp}) == Outside(old(disk.files), {tmp})
  {
    ok := WriteTemp(disk, content, tmp);
    if !ok { return; }
    ok := disk.Rename(tmp, target);
  }

  method AtomicWriteFile(disk: Disk, target: Path, content: string, tmp: Path) returns (result: AtomicWriteResult)
    requires disk.Valid() && tmp != target
    modifies disk
    ensures disk.Valid() && disk.overwriteFaults == old(disk.overwriteFaults)
    ensures result.filePath == target && result.tempPath == tmp
    ensures AllOrNothing(old(disk.trace), disk.trace, tmp, Outside(old(disk.files), {tmp}), target, content)
    ensures result.success ==> disk.files == Outside(old(disk.files), {tmp})[target := content]
    ensures !result.success ==> Outside(disk.files, {tmp}) == Outside(old(disk.files), {tmp})
    ensures disk.unlinkFaults == old(disk.unlinkFaults) ==> tmp !in disk.files
    ensures result.success <==> disk.Faults() == old(disk.Faults())
    ensures disk.unlinkFaults >= old(disk.unlinkFaults) && disk.otherFaults >= old(disk.otherFaults)
  {
    var ok := TryAtomicWrite(disk, target, content, tmp);
    if !ok {
      var _ := disk.Unlink(tmp);
    }
    return AtomicWriteResult(ok, target, tmp);
  }

  // ----- Batches -----

  datatype FileWrite = FileWrite(path: Path, content: string)

  /** The files after the given writes, in order. */
  function Written(files: Files, writes: seq<FileWrite>): Files {
    if writes == [] then files
    else
      var last := writes[|writes| - 1];
      Written(files, writes[..|writes| - 1])[last.path := last.content]
  }

  /** Each target holds the content of the last write to it, and every other file is untouched. */
  lemma {:induction false} WrittenMeaning(files: Files, writes: seq<FileWrite>)
    ensures forall i | 0 <= i < |writes| && (forall j | i < j < |writes| :: writes[j].path != writes[i].path) ::
              writes[i].path in Written(files, writes) && Written(files, writes)[writes[i].path] == writes[i].content
    ensures forall p | (forall i | 0 <= i < |writes| :: writes[i].path != p) ::
              (p in Written(files, writes) <==> p in files)
              && (p in files ==> Written(files, writes)[p] == files[p])
  {
    if writes != [] {
      var front := writes[..|writes| - 1];
      WrittenMeaning(files, front);
      forall i | 0 <= i < |front| && (forall j | i < j < |writes| :: writes[j].path != writes[i].path)
        ensures writes[i].path in Written(files, writes) && Written(files, writes)[writes[i].path] == writes[i].content
      {
        assert forall j | i < j < |front| :: front[j].path != front[i].path;
        assert writes[|writes| - 1].path != writes[i].path;
      }
    }
  }

  function TempSet(temps: seq<Path>): set<Path> {
    set p | p in temps
  }

  predicate Distinct(ps: seq<Path>) {
    forall i, j | 0 <= i < j < |ps| :: ps[i] != ps[j]
  }

  /** Temp names are new: not on the disk, not a target, no two alike. */
  predicate FreshTemps(files: Files, writes: seq<FileWrite>, temps: seq<Path>) {
    && |temps| == |writes| && Distinct(temps)
    && (forall i | 0 <= i < |temps| :: temps[i] !in files)
    && (forall i, j | 0 <= i < |temps| && 0 <= j < |writes| :: temps[i] != writes[j].path)
  }

  /** In every state passed through, the real files are those after some prefix of at most k writes. */
  ghost predicate PrefixMoments(before: seq<Files>, after: seq<Files>, temps: set<Path>, start: Files,
                                writes: seq<FileWrite>, k: nat)
    requires k <= |writes|
  {
    && before <= after
    && forall i | |before| <= i < |after| ::
         exists j | 0 <= j <= k :: Outside(after[i], temps) == Written(start, writes[..j])
  }

  function Successes(writes: seq<FileWrite>, temps: seq<Path>): seq<AtomicWriteResult>
    requires |writes| <= |temps|
  {
    seq(|writes|, i requires 0 <= i < |writes| => AtomicWriteResult(true, writes[i].path, temps[i]))
  }

  /** Removes the given temp files, ignoring failures. */
  method UnlinkAll(disk: Disk, temps: seq<Path>)
    requires disk.Valid()
    modifies disk`files, disk`trace, disk`unlinkFaults
    ensures disk.Valid() && Outside(disk.files, TempSet(temps)) == Outside(old(disk.files), TempSet(temps))
    ensures disk.files.Keys <= old(disk.files).Keys
    ensures disk.unlinkFaults >= old(disk.unlinkFaults)
    ensures disk.unlinkFaults == old(disk.unlinkFaults) ==> disk.files == Outside(old(disk.files), TempSet(temps))
    ensures Moments(old(disk.trace), disk.trace, TempSet(temps), Outside(old(disk.files), TempSet(temps)))
  {
    for n := 0 to |temps|
      invariant disk.Valid() && disk.unlinkFaults >= old(disk.unlinkFaults)
      invariant Outside(disk.files, TempSet(temps)) == Outside(old(disk.files), TempSet(temps))
      invariant disk.files.Keys <= old(disk.files).Keys
      invariant disk.unlinkFaults == old(disk.unlinkFaults) ==> forall i | 0 <= i < n :: temps[i] !in disk.files
      invariant Moments(old(disk.trace), disk.trace, TempSet(temps), Outside(old(disk.files), TempSet(temps)))
    {
      var _ := disk.Unlink(temps[n]);
    }
  }

  /** The temp files from n on hold their contents, and those before n are gone. */
  ghost predicate Staged(files: Files, writes: seq<FileWrite>, temps: seq<Path>, n: nat) {
    && |temps| == |writes|
    && (forall i | n <= i < |writes| :: temps[i] in files && files[temps[i]] == writes[i].content)
    && (forall i | 0 <= i < n && i < |temps| :: temps[i] !in files)
  }

  lemma OutsideMore(a: Files, b: Files, few: set<Path>, many: set<Path>)
    requires Outside(a, few) == Outside(b, few) && few <= many
    ensures Outside(a, many) == Outside(b, many)
  {
    assert Outside(a, many) == Outside(Outside(a, few), many);
    assert Outside(b, many) == Outside(Outside(b, few), many);
  }

  lemma OutsideAt(a: Files, b: Files, hidden: set<Path>, p: Path)
    requires Outside(a, hidden) == Outside(b, hidden) && p !in hidden
    ensures (p in a <==> p in b) && (p in a ==> a[p] == b[p])
  {
    assert p in a <==> p in Outside(a, hidden);
    assert p in b <==> p in Outside(b, hidden);
  }

  lemma MomentsMore(before: seq<Files>, after: seq<Files>, few: set<Path>, many: set<Path>, files: Files)
    requires few <= many && Moments(before, after, few, Outside(files, few))
    ensures Moments(before, after, many, Outside(files, many))
  {
    forall i | |before| <= i < |after| ensures Outside(after[i], many) == Outside(files, many) {
      OutsideMore(after[i], files, few, many);
    }
  }

  lemma OnlyOneTouched(before: Files, after: Files, temps: seq<Path>, n: nat)
    requires n < |temps| && Distinct(temps) && Outside(before, {temps[n]}) == Outside(after, {temps[n]})
    ensures forall i | 0 <= i < |temps| && i != n ::
              && (temps[i] in before <==> temps[i] in after)
              && (temps[i] in before ==> before[temps[i]] == after[temps[i]])
  {
    forall i | 0 <= i < |temps| && i != n
      ensures (temps[i] in before <==> temps[i] in after)
      ensures temps[i] in before ==> before[temps[i]] == after[temps[i]]
    {
      assert temps[i] != temps[n];
      assert temps[i] in before <==> temps[i] in Outside(before, {temps[n]});
      assert temps[i] in after <==> temps[i] in Outside(after, {temps[n]});
    }
  }

  /** Removes the temp files up to and including the n-th. */
  method CleanUp(disk: Disk, temps: seq<Path>, n: nat)
    requires disk.Valid() && n < |temps| && forall i | n < i < |temps| :: temps[i] !in disk.files
    modifies disk`files, disk`trace, disk`unlinkFaults
    ensures disk.Valid() && disk.unlinkFaults >= old(disk.unlinkFaults)
    ensures Moments(old(disk.trace), disk.trace, TempSet(temps), Outside(old(disk.files), TempSet(temps)))
    ensures Outside(disk.files, TempSet(temps)) == Outside(old(disk.files), TempSet(temps))
    ensures disk.unlinkFaults == old(disk.unlinkFaults) ==> disk.files == Outside(old(disk.files), TempSet(temps))
  {
    ghost var some := temps[..n + 1];
    UnlinkAll(disk, temps[..n + 1]);
    assert TempSet(some) <= TempSet(temps);
    OutsideMore(disk.files, old(disk.files), TempSet(some), TempSet(temps));
    MomentsMore(old(disk.trace), disk.trace, TempSet(some), TempSet(temps), old(disk.files));
    if disk.unlinkFaults == old(disk.unlinkFaults) {
      forall p | p in TempSet(temps) ensures p !in disk.files {
        var i :| 0 <= i < |temps| && temps[i] == p;
        if i <= n { assert p == some[i]; }
      }
      assert disk.files == Outside(disk.files, TempSet(temps));
    }
  }

  /** Phase 1: all temp files are written; or one fails, and those written so far are removed. */
  method WriteTemps(disk: Disk, writes: seq<FileWrite>, temps: seq<Path>) returns (failed: int)
    requires disk.Valid() && FreshTemps(disk.files, writes, temps)
    modifies disk
    ensures disk.Valid() && -1 <= failed < |writes|
    ensures failed == -1 ==> Staged(disk.files, writes, temps, 0)
    ensures failed == -1 <==> disk.Faults() == old(disk.Faults())
    ensures disk.unlinkFaults >= old(disk.unlinkFaults) && disk.Faults() >= old(disk.Faults())
    ensures failed == -1 ==> disk.unlinkFaults == old(disk.unlinkFaults)
    ensures failed >= 0 && disk.unlinkFaults == old(disk.unlinkFaults) ==> disk.files == old(disk.files)
    ensures Moments(old(disk.trace), disk.trace, TempSet(temps), old(disk.files))
    ensures Outside(disk.files, TempSet(temps)) == old(disk.files)
  {
    ghost var all := TempSet(temps);
    for n := 0 to |writes|
      invariant disk.Valid() && disk.unlinkFaults == old(disk.unlinkFaults) && disk.Faults() == old(disk.Faults())
      invariant Outside(disk.files, all) == old(disk.files)
      invariant forall i | 0 <= i < n :: temps[i] in disk.files && disk.files[temps[i]] == writes[i].content
      invariant forall i | n <= i < |temps| :: temps[i] !in disk.files
      invariant Moments(old(disk.trace), disk.trace, all, old(disk.files))
    {
      ghost var files0, trace0 := disk.files, disk.trace;
      var ok := WriteTemp(disk, writes[n].content, temps[n]);
      OutsideMore(disk.files, files0, {temps[n]}, all);
      MomentsMore(trace0, disk.trace, {temps[n]}, all, files0);
      OnlyOneTouched(files0, disk.files, temps, n);
      if !ok {
        CleanUp(disk, temps, n);
        return n;
      }
    }
    return -1;
  }

  /** After n renames: the real files are those after n writes, and no state passed through was anything else than
      a prefix of the writes. */
  ghost predicate Renamed(start: Files, trace0: seq<Files>, files: Files, trace: seq<Files>, writes: seq<FileWrite>,
                          temps: seq<Path>, n: nat)
  {
    && n <= |writes|
    && Outside(files, TempSet(temps)) == Written(start, writes[..n])
    && PrefixMoments(trace0, trace, TempSet(temps), start, writes, n)
  }

  lemma RenamesStart(start: Files, trace0: seq<Files>, files: Files, trace: seq<Files>, writes: seq<FileWrite>,
                     temps: seq<Path>)
    requires Moments(trace0, trace, TempSet(temps), start) && Outside(files, TempSet(temps)) == start
    ensures Renamed(start, trace0, files, trace, writes, temps, 0)
  {
  }

  lemma RenameStep(start: Files, trace0: seq<Files>, before: Files, trace: seq<Files>, after: Files,
                   writes: seq<FileWrite>, temps: seq<Path>, n: nat)
    requires n < |writes| && Renamed(start, trace0, before, trace, writes, temps, n)
    requires Outside(after, TempSet(temps)) == Outside(before, TempSet(temps))[writes[n].path := writes[n].content]
    ensures Renamed(start, trace0, after, trace + [after], writes, temps, n + 1)
  {
    assert writes[..n + 1][..n] == writes[..n];
    forall i | |trace0| <= i < |trace + [after]|
      ensures exists j | 0 <= j <= n + 1 ::
                Outside((trace + [after])[i], TempSet(temps)) == Written(start, writes[..j])
    {
      if i < |trace| {
        var j :| 0 <= j <= n && Outside(trace[i], TempSet(temps)) == Written(start, writes[..j]);
      }
    }
  }

  lemma RenamesStop(start: Files, trace0: seq<Files>, before: Files, trace: seq<Files>, trace': seq<Files>,
                    writes: seq<FileWrite>, temps: seq<Path>, n: nat)
    requires Renamed(start, trace0, before, trace, writes, temps, n)
    requires Moments(trace, trace', TempSet(temps), Written(start, writes[..n]))
    ensures PrefixMoments(trace0, trace', TempSet(temps), start, writes, n)
  {
  }

  lemma RenamedMeans(start: Files, trace0: seq<Files>, files: Files, trace: seq<Files>, writes: seq<FileWrite>,
                     temps: seq<Path>, n: nat)
    requires Renamed(start, trace0, files, trace, writes, temps, n)
    ensures n <= |writes| && Outside(files, TempSet(temps)) == Written(start, writes[..n])
    ensures PrefixMoments(trace0, trace, TempSet(temps), start, writes, n)
  {
  }

  lemma RenameOutside(before: Files, after: Files, temps: seq<Path>, n: nat, w: FileWrite)
    requires n < |temps| && temps[n] in before && w.path !in temps
    requires after == (before - {temps[n]})[w.path := before[temps[n]]] && before[temps[n]] == w.content
    ensures Outside(after, TempSet(temps)) == Outside(before, TempSet(temps))[w.path := w.content]
  {
  }

  /** After a failed rename: unlinks the temp names already renamed, which are gone, and then the remaining ones. */
  method AbandonRenames(disk: Disk, writes: seq<FileWrite>, temps: seq<Path>, n: nat, ghost start: Files)
    requires disk.Valid() && n < |writes| && Staged(disk.files, writes, temps, n)
    requires Outside(disk.files, TempSet(temps)) == Written(start, writes[..n])
    modifies disk`files, disk`trace, disk`unlinkFaults
    ensures disk.Valid() && disk.unlinkFaults >= old(disk.unlinkFaults)
    ensures Outside(disk.files, TempSet(temps)) == Written(start, writes[..n])
    ensures disk.unlinkFaults == old(disk.unlinkFaults) ==> disk.files == Written(start, writes[..n])
    ensures Moments(old(disk.trace), disk.trace, TempSet(temps), Written(start, writes[..n]))
  {
    ghost var all, files0, trace0 := TempSet(temps), disk.files, disk.trace;
    ghost var done, rest := temps[..n], temps[n..];
    UnlinkAll(disk, temps[..n]);
    assert TempSet(done) <= all && TempSet(rest) <= all;
    OutsideMore(disk.files, files0, TempSet(done), all);
    MomentsMore(trace0, disk.trace, TempSet(done), all, files0);
    ghost var files1, trace1 := disk.files, disk.trace;
    UnlinkAll(disk, temps[n..]);
    OutsideMore(disk.files, files1, TempSet(rest), all);
    MomentsMore(trace1, disk.trace, TempSet(rest), all, files1);
    if disk.unlinkFaults == old(disk.unlinkFaults) {
      forall p | p in all ensures p !in disk.files {
        var i :| 0 <= i < |temps| && temps[i] == p;
        if i >= n { assert p == rest[i - n]; }
      }
      assert disk.files == Outside(disk.files, all);
    }
  }

  /** Phase 2: the renames in order; a failure abandons the rest. */
  method RenameTemps(disk: Disk, writes: seq<FileWrite>, temps: seq<Path>, ghost start: Files,
                     ghost trace0: seq<Files>)
    returns (results: seq<AtomicWriteResult>, ghost k: nat)
    requires disk.Valid() && FreshTemps(start, writes, temps) && Staged(disk.files, writes, temps, 0)
    requires Renamed(start, trace0, disk.files, disk.trace, writes, temps, 0)
    modifies disk
    ensures disk.Valid() && k <= |writes| && disk.unlinkFaults >= old(disk.unlinkFaults)
    ensures Outside(disk.files, TempSet(temps)) == Written(start, writes[..k])
    ensures disk.unlinkFaults == old(disk.unlinkFaults) ==> disk.files == Written(start, writes[..k])
    ensures PrefixMoments(trace0, disk.trace, TempSet(temps), start, writes, k)
    ensures k == |writes| <==> disk.Faults() == old(disk.Faults())
    ensures disk.Faults() >= old(disk.Faults())
    ensures k == |writes| ==> results == Successes(writes, temps)
    ensures k < |writes| ==> && |results| == k + 1 && results[..k] == Successes(writes[..k], temps)
                             && results[k] == AtomicWriteResult(false, writes[k].path, temps[k])
  {
    hide Renamed, PrefixMoments, Written, Moments;
    results, k := [], 0;
    for n := 0 to |writes|
      invariant disk.Valid() && k == n && disk.unlinkFaults == old(disk.unlinkFaults)
      invariant disk.Faults() == old(disk.Faults())
      invariant Staged(disk.files, writes, temps, n)
      invariant Renamed(start, trace0, disk.files, disk.trace, writes, temps, n)
      invariant results == Successes(writes[..n], temps)
    {
      ghost var files0, trace1 := disk.files, disk.trace;
      RenamedMeans(start, trace0, disk.files, disk.trace, writes, temps, n);
      var ok := disk.Rename(temps[n], writes[n].path);
      if !ok {
        results := results + [AtomicWriteResult(false, writes[n].path, temps[n])];
        AbandonRenames(disk, writes, temps, n, start);
        RenamesStop(start, trace0, files0, trace1, disk.trace, writes, temps, n);
        return;
      }
      k := n + 1;
      RenameOutside(files0, disk.files, temps, n, writes[n]);
      RenameStep(start, trace0, files0, trace1, disk.files, writes, temps, n);
      results := results + [AtomicWriteResult(true, writes[n].path, temps[n])];
      assert results == Successes(writes[..n + 1], temps);
    }
    RenamedMeans(start, trace0, disk.files, disk.trace, writes, temps, |writes|);
    assert writes[..|writes|] == writes;
    assert disk.files == Outside(disk.files, TempSet(temps));
  }

  /** Writes the files in order, all or a prefix of them. */
  method AtomicApplyBatch(disk: Disk, writes: seq<FileWrite>, temps: seq<Path>)
    returns (results: seq<AtomicWriteResult>, ghost k: nat)
    requires disk.Valid() && FreshTemps(disk.files, writes, temps)
    modifies disk
    ensures disk.Valid() && k <= |writes|
    ensures Outside(disk.files, TempSet(temps)) == Written(old(disk.files), writes[..k])
    ensures disk.unlinkFaults == old(disk.unlinkFaults) ==> disk.files == Written(old(disk.files), writes[..k])
    ensures PrefixMoments(old(disk.trace), disk.trace, TempSet(temps), old(disk.files), writes, k)
    ensures k == |writes| <==> disk.Faults() == old(disk.Faults())
    ensures k == |writes| ==> results == Successes(writes, temps)
    ensures k < |writes| ==> && |results| == k + 1 && results[..k] == Successes(writes[..k], temps)
                             && exists j | k <= j < |writes| && (k > 0 ==> j == k) ::
                                  results[k] == AtomicWriteResult(false, writes[j].path, temps[j])
  {
    hide Moments, Outside, Staged;
    results, k := [], 0;
    var failed := WriteTemps(disk, writes, temps);
    assert writes[..0] == [];
    ghost var start, trace0 := old(disk.files), old(disk.trace);
    RenamesStart(start, trace0, disk.files, disk.trace, writes, temps);
    if failed >= 0 {
      results := [AtomicWriteResult(false, writes[failed].path, temps[failed])];
      return;
    }
    results, k := RenameTemps(disk, writes, temps, start, trace0);
  }
}
