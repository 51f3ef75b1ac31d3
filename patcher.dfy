/**
  The patcher's orchestration: probing for the archive, the one-time
  backup, restoring from it, extracting, patching every script file and
  repacking, and the order `main` does these in.

  Each step is a pure function over a snapshot `Fs` of the disk (its
  specification) and a method over a `Disk` proved to leave the disk in the
  snapshot the function gives.
 */
module Patcher {
  import opened Wrappers
  import opened Text
  import opened Catalog
  import opened ContentPatch
  import opened ScratchTree
  import opened FileSystem

  /** Where an archive sits: its directory and its own path. */
  datatype Location = Location(dir: string, archive: string)

  /** The three places `findAsarPath` looks, in order. */
  function Candidates(hydraPath: string): seq<Location> {
    [ Location(hydraPath + "/resources", hydraPath + "/resources/app.asar"),
      Location(hydraPath + "/Resources", hydraPath + "/Resources/app.asar"),
      Location(hydraPath, hydraPath + "/app.asar") ]
  }

  /** The first candidate whose archive path exists. */
  function FirstExisting(fs: Fs, cands: seq<Location>): (r: Option<Location>)
    ensures r.Some? ==> exists i | 0 <= i < |cands| :: r.value == cands[i]
                          && Exists(fs, cands[i].archive)
                          && forall j :: 0 <= j < i ==> !Exists(fs, cands[j].archive)
    ensures r.None? <==> forall i :: 0 <= i < |cands| ==> !Exists(fs, cands[i].archive)
  {
    if cands == [] then None
    else if Exists(fs, cands[0].archive) then Some(cands[0])
    else
      var r := FirstExisting(fs, cands[1..]);
      assert forall i :: 1 <= i < |cands| ==> cands[1..][i - 1] == cands[i];
      r
  }

  function BackupPath(archive: string): string {
    archive + ".backup"
  }

  /** The scratch directory an archive is extracted into. */
  function TempDir(loc: Location): string {
    loc.dir + "/app-temp"
  }

  // ---------------------------------------------------------------------
  // The paths involved never coincide

  lemma EndsWithAppend(x: string, s: string, t: string)
    requires EndsWith(s, t)
    ensures EndsWith(x + s, t)
  {
    assert (x + s)[|x + s| - |t|..] == s[|s| - |t|..];
  }

  lemma Apart(x: string, y: string, a: string, b: string)
    requires EndsWith(x, a) && EndsWith(y, b) && |a| == |b| && a != b
    ensures x != y
  {
  }

  /** Archives end in `asar`, backups in `ckup`, scratch directories in `temp`. */
  lemma Endings(h: string, k: nat)
    requires k < 3
    ensures EndsWith(Candidates(h)[k].archive, "asar")
    ensures EndsWith(BackupPath(Candidates(h)[k].archive), "ckup")
    ensures EndsWith(TempDir(Candidates(h)[k]), "temp")
    ensures |h| < |Candidates(h)[k].archive| && |h| < |TempDir(Candidates(h)[k])|
  {
    var c := Candidates(h)[k];
    var tail := if k == 0 then "/resources/app.asar" else if k == 1 then "/Resources/app.asar" else "/app.asar";
    assert c.archive == h + tail;
    EndsWithAppend(h, tail, "asar");
    EndsWithAppend(c.archive, ".backup", "ckup");
    EndsWithAppend(c.dir, "/app-temp", "temp");
  }

  /**
    For one candidate, its archive, its backup and its scratch directory are
    three different paths, none of them the install path.
   */
  lemma OwnPathsApart(h: string, k: nat)
    requires k < 3
    ensures var c := Candidates(h)[k];
            && c.archive != BackupPath(c.archive) && c.archive != TempDir(c)
            && BackupPath(c.archive) != TempDir(c)
            && h != c.archive && h != BackupPath(c.archive) && h != TempDir(c)
  {
    var c := Candidates(h)[k];
    Endings(h, k);
    Apart(c.archive, BackupPath(c.archive), "asar", "ckup");
    Apart(c.archive, TempDir(c), "asar", "temp");
    Apart(BackupPath(c.archive), TempDir(c), "ckup", "temp");
  }

  /**
    The paths one candidate's run writes (its archive, backup and scratch
    directory) are never another candidate's archive.
   */
  lemma OtherPathsApart(h: string, j: nat, k: nat)
    requires j < 3 && k < 3 && j != k
    ensures var c := Candidates(h)[k];
            var d := Candidates(h)[j];
            && c.archive != d.archive && BackupPath(c.archive) != d.archive && TempDir(c) != d.archive
  {
    var c := Candidates(h)[k];
    var d := Candidates(h)[j];
    Endings(h, k);
    Endings(h, j);
    Apart(BackupPath(c.archive), d.archive, "ckup", "asar");
    Apart(TempDir(c), d.archive, "temp", "asar");
    ArchivesApart(h, j, k);
  }

  lemma ArchivesApart(h: string, j: nat, k: nat)
    requires j < 3 && k < 3 && j != k
    ensures Candidates(h)[j].archive != Candidates(h)[k].archive
  {
    var lower := h + "/resources/app.asar";
    var upper := h + "/Resources/app.asar";
    var flat := h + "/app.asar";
    assert lower[|h| + 1] == 'r' && upper[|h| + 1] == 'R';
    assert |lower| == |upper| == |flat| + 10;
  }

  /** A step's result with the disk it leaves, or the disk as it was when the step threw. */
  datatype Outcome<T> = Ok(value: T, fs: Fs) | Thrown(fs: Fs)

  function Value<T>(o: Outcome<T>): Option<T> {
    match o
    case Ok(v, _) => Some(v)
    case Thrown(_) => None
  }

  /** `createBackup`: copy the archive to its backup path unless something is there already. */
  function Backup(fs: Fs, archive: string): Outcome<string> {
    var b := BackupPath(archive);
    if Exists(fs, b) then Ok(b, fs)
    else match CopyFile(fs, archive, b)
      case None => Thrown(fs)
      case Some(fs') => Ok(b, fs')
  }

  /** `restoreBackup`: false when there is no backup, else copy it over the archive. */
  function Restore(fs: Fs, archive: string): Outcome<bool> {
    var b := BackupPath(archive);
    if !Exists(fs, b) then Ok(false, fs)
    else match CopyFile(fs, b, archive)
      case None => Thrown(fs)
      case Some(fs') => Ok(true, fs')
  }

  // ---------------------------------------------------------------------
  // Scanning the extracted tree

  /** The scratch tree as the scan loop leaves it, and `totalChanges`. */
  datatype ScanState = ScanState(tree: Node, total: nat)

  /**
    One iteration of the scan loop: patch the file's text; a file in which
    something was found adds its count, and is written back unless dry-run.
   */
  function ScanFile(s: ScanState, p: Path, config: Config, dryRun: bool): ScanState {
    match FileAt(s.tree, p)
    case None => s
    case Some(content) =>
      var r := Patch(content, config, dryRun);
      if r.changeCount > 0 then
        ScanState(if dryRun then s.tree else Put(s.tree, p, r.patchedContent), s.total + r.changeCount)
      else s
  }

  function Scan(tree: Node, files: seq<Path>, config: Config, dryRun: bool): ScanState {
    if files == [] then ScanState(tree, 0)
    else ScanFile(Scan(tree, files[..|files| - 1], config, dryRun), files[|files| - 1], config, dryRun)
  }

  /** The number of changes `patchContent` reports for each of `files` of `tree`, summed. */
  function CountIn(tree: Node, files: seq<Path>, config: Config, dryRun: bool): nat {
    if files == [] then 0
    else
      CountIn(tree, files[..|files| - 1], config, dryRun)
      + match FileAt(tree, files[|files| - 1])
        case None => 0
        case Some(content) => Patch(content, config, dryRun).changeCount
  }

  /** The text the scan leaves at `q`. */
  function Scanned(tree: Node, files: seq<Path>, config: Config, dryRun: bool, q: Path): Option<string> {
    if q in files && !dryRun && FileAt(tree, q).Some?
    then Some(Patch(FileAt(tree, q).value, config, false).patchedContent)
    else FileAt(tree, q)
  }

  /**
    Scanning distinct files: each listed file ends up holding its patched
    text (or keeps its text in a dry run), every other path is untouched,
    and `totalChanges` is the sum of the per-file counts.
   */
  lemma {:induction false} ScanEffect(tree: Node, files: seq<Path>, config: Config, dryRun: bool)
    requires Distinct(files)
    ensures forall q :: FileAt(Scan(tree, files, config, dryRun).tree, q) == Scanned(tree, files, config, dryRun, q)
    ensures Scan(tree, files, config, dryRun).total == CountIn(tree, files, config, dryRun)
  {
    if files != [] {
      var init := files[..|files| - 1];
      var f := files[|files| - 1];
      assert Distinct(init);
      assert f !in init;
      assert forall q :: q in files <==> q in init || q == f;
      ScanEffect(tree, init, config, dryRun);
      var s := Scan(tree, init, config, dryRun);
      assert FileAt(s.tree, f) == FileAt(tree, f);
      ScanFileEffect(s, f, config, dryRun);
    }
  }

  /** One file of the scan: only that file is rewritten, with its patched text, and its count is added. */
  lemma ScanFileEffect(s: ScanState, f: Path, config: Config, dryRun: bool)
    ensures forall q :: FileAt(ScanFile(s, f, config, dryRun).tree, q)
              == if q == f && !dryRun && FileAt(s.tree, f).Some?
                 then Some(Patch(FileAt(s.tree, f).value, config, false).patchedContent)
                 else FileAt(s.tree, q)
    ensures ScanFile(s, f, config, dryRun).total
            == s.total + match FileAt(s.tree, f)
                         case None => 0
                         case Some(content) => Patch(content, config, dryRun).changeCount
  {
    match FileAt(s.tree, f)
    case None =>
    case Some(content) =>
      var r := Patch(content, config, dryRun);
      NoChangeNoRewrite(content, config, dryRun);
      if r.changeCount > 0 && !dryRun {
        PutThenRead(s.tree, f, r.patchedContent);
        forall q | q != f ensures FileAt(Put(s.tree, f, r.patchedContent), q) == FileAt(s.tree, q) {
          PutElsewhere(s.tree, f, q, r.patchedContent);
        }
      }
  }

  /**
    `patchAsar`: extract into the scratch directory, scan the script files,
    repack only when not dry-run and something was replaced, then remove
    the scratch directory. The result is `totalChanges`.
   */
  function PatchAsarSpec(fs: Fs, loc: Location, config: Config, dryRun: bool,
                         extract: Bytes -> Option<Node>, pack: Node -> Option<Bytes>): Outcome<nat>
  {
    if loc.archive !in fs.files then Thrown(fs)
    else match extract(fs.files[loc.archive])
      case None => Thrown(fs)
      case Some(tree) => PatchExtracted(fs, loc, tree, config, dryRun, pack)
  }

  /** The rest of `patchAsar` once the archive, on the disk `fs`, is extracted as `tree`. */
  function PatchExtracted(fs: Fs, loc: Location, tree: Node, config: Config, dryRun: bool,
                          pack: Node -> Option<Bytes>): Outcome<nat>
  {
    var temp := TempDir(loc);
    var s := Scan(tree, JsFiles(tree, []), config, dryRun);
    var scanned := fs.(trees := fs.trees[temp := s.tree]);
    if !dryRun && s.total > 0 then
      match pack(s.tree)
      case None => Thrown(scanned)
      case Some(b) => Ok(s.total, Remove(scanned.(files := scanned.files[loc.archive := b]), temp))
    else Ok(s.total, Remove(scanned, temp))
  }

  /**
    What `patchAsar` does, given an archive that extracts: exactly the
    script files are patched (in a dry run none is rewritten), the count is
    the sum of the per-file counts, the archive is repacked from the
    patched tree only when not dry-run and something was replaced, and the
    scratch directory is gone afterwards except when repacking threw. No
    other file changes.
   */
  lemma PatchAsarEffect(fs: Fs, loc: Location, config: Config, dryRun: bool,
                        extract: Bytes -> Option<Node>, pack: Node -> Option<Bytes>)
    requires ExtractsTrees(extract) && loc.archive in fs.files && extract(fs.files[loc.archive]).Some?
    ensures var tree := extract(fs.files[loc.archive]).value;
            var s := Scan(tree, JsFiles(tree, []), config, dryRun);
            var o := PatchAsarSpec(fs, loc, config, dryRun, extract, pack);
            && (forall q :: FileAt(s.tree, q)
                  == if ScriptAt(tree, q) && !dryRun
                     then Some(Patch(FileAt(tree, q).value, config, false).patchedContent)
                     else FileAt(tree, q))
            && s.total == CountIn(tree, JsFiles(tree, []), config, dryRun)
            && (o.Thrown? <==> !dryRun && s.total > 0 && pack(s.tree).None?)
            && (o.Thrown? ==> o.fs.files == fs.files && TempDir(loc) in o.fs.trees)
            && (o.Ok? ==> o.value == s.total && !Exists(o.fs, TempDir(loc)))
            && (o.Ok? ==> o.fs.files == (if !dryRun && s.total > 0
                                         then fs.files[loc.archive := pack(s.tree).value]
                                         else fs.files) - {TempDir(loc)})
  {
    var tree := extract(fs.files[loc.archive]).value;
    var listed := JsFiles(tree, []);
    ListedOnce(tree, []);
    ScanEffect(tree, listed, config, dryRun);
    forall q ensures q in listed <==> ScriptAt(tree, q) {
      assert [] + q == q;
      ListedIffScript(tree, [], q);
    }
  }

  // ---------------------------------------------------------------------
  // main

  /** What `main` is run with once its arguments are parsed. */
  datatype Invocation = Invocation(hydraPath: Option<string>, config: Config, restore: bool, dryRun: bool)

  /**
    How a run ends. `Crashed` is a copy that threw outside the `try`: the
    rejection is caught by `main().catch` and only logged.
   */
  datatype Exit =
    | MissingPath
    | PathNotFound
    | ArchiveNotFound
    | RestoreDone(restored: bool)
    | Patched(total: nat)
    | PatchFailed
    | Crashed

  /** The process exit status of each ending. */
  function ExitCode(e: Exit): nat {
    match e
    case MissingPath => 1
    case PathNotFound => 1
    case ArchiveNotFound => 1
    case PatchFailed => 1
    case RestoreDone(_) => 0
    case Patched(_) => 0
    case Crashed => 0
  }

  datatype RunResult = RunResult(exit: Exit, fs: Fs)

  /**
    `main`: check the install path, find the archive, then either restore
    and stop, or back up (unless dry-run) and patch.
   */
  function MainSpec(fs: Fs, inv: Invocation, extract: Bytes -> Option<Node>, pack: Node -> Option<Bytes>): RunResult {
    match inv.hydraPath
    case None => RunResult(MissingPath, fs)
    case Some(h) =>
      if h == "" then RunResult(MissingPath, fs)
      else if !Exists(fs, h) then RunResult(PathNotFound, fs)
      else match FirstExisting(fs, Candidates(h))
        case None => RunResult(ArchiveNotFound, fs)
        case Some(loc) =>
          if inv.restore then
            match Restore(fs, loc.archive)
            case Ok(done, fs1) => RunResult(RestoreDone(done), fs1)
            case Thrown(fs1) => RunResult(Crashed, fs1)
          else
            match (if inv.dryRun then Ok(BackupPath(loc.archive), fs) else Backup(fs, loc.archive))
            case Thrown(fs1) => RunResult(Crashed, fs1)
            case Ok(_, fs1) =>
              match PatchAsarSpec(fs1, loc, inv.config, inv.dryRun, extract, pack)
              case Ok(total, fs2) => RunResult(Patched(total), fs2)
              case Thrown(fs2) => RunResult(PatchFailed, fs2)
  }

  /** `FirstExisting` over the candidates picks one of the three, by index. */
  lemma Located(fs: Fs, h: string, loc: Location) returns (k: nat)
    requires FirstExisting(fs, Candidates(h)) == Some(loc)
    ensures k < 3 && loc == Candidates(h)[k] && Exists(fs, loc.archive)
    ensures forall j :: 0 <= j < k ==> !Exists(fs, Candidates(h)[j].archive)
  {
    var cands := Candidates(h);
    k :| 0 <= k < |cands| && loc == cands[k] && Exists(fs, cands[k].archive)
         && forall j :: 0 <= j < k ==> !Exists(fs, cands[j].archive);
  }

  /**
    The restore branch restores and stops: the exit status is 0 whatever
    happens, no backup is made and nothing is extracted. Without a backup
    nothing changes at all; with one, the archive gets the backup's bytes.
   */
  lemma RestoreIsTerminal(fs: Fs, inv: Invocation, extract: Bytes -> Option<Node>, pack: Node -> Option<Bytes>,
                          loc: Location)
    requires inv.restore && inv.hydraPath.Some? && inv.hydraPath.value != "" && Exists(fs, inv.hydraPath.value)
    requires FirstExisting(fs, Candidates(inv.hydraPath.value)) == Some(loc)
    ensures var r := MainSpec(fs, inv, extract, pack);
            var b := BackupPath(loc.archive);
            && ExitCode(r.exit) == 0
            && r.fs.dirs == fs.dirs && r.fs.trees == fs.trees
            && (forall p :: p != loc.archive ==> (p in r.fs.files <==> p in fs.files))
            && (forall p :: p in fs.files && p != loc.archive ==> r.fs.files[p] == fs.files[p])
            && (!Exists(fs, b) ==> r == RunResult(RestoreDone(false), fs))
            && (b in fs.files && loc.archive !in fs.dirs && loc.archive !in fs.trees
                ==> r.exit == RestoreDone(true) && r.fs.files[loc.archive] == fs.files[b])
  {
  }

  /**
    A dry run writes no backup and no archive: no file changes but the
    scratch directory, which it removes.
   */
  lemma DryRunTouchesNothing(fs: Fs, inv: Invocation, extract: Bytes -> Option<Node>, pack: Node -> Option<Bytes>,
                             loc: Location)
    requires inv.dryRun && !inv.restore && inv.hydraPath.Some?
    requires FirstExisting(fs, Candidates(inv.hydraPath.value)) == Some(loc)
    ensures var r := MainSpec(fs, inv, extract, pack);
            && (forall p :: p != TempDir(loc) ==> (p in r.fs.files <==> p in fs.files))
            && (forall p :: p in fs.files && p != TempDir(loc) ==> r.fs.files[p] == fs.files[p])
            && (BackupPath(loc.archive) in r.fs.files <==> BackupPath(loc.archive) in fs.files)
  {
    var k := Located(fs, inv.hydraPath.value, loc);
    OwnPathsApart(inv.hydraPath.value, k);
  }

  /**
    A patch run that gets past the backup step leaves a backup: the one
    already there, untouched, or else a copy of the archive as it was
    before the run. The step throws only when there is no backup and the
    archive cannot be copied.
   */
  lemma PatchRunBacksUp(fs: Fs, inv: Invocation, extract: Bytes -> Option<Node>, pack: Node -> Option<Bytes>,
                        loc: Location)
    requires !inv.dryRun && !inv.restore && inv.hydraPath.Some? && inv.hydraPath.value != ""
    requires Exists(fs, inv.hydraPath.value)
    requires FirstExisting(fs, Candidates(inv.hydraPath.value)) == Some(loc)
    ensures var r := MainSpec(fs, inv, extract, pack);
            var b := BackupPath(loc.archive);
            && (r.exit == Crashed <==> !Exists(fs, b) && CopyFile(fs, loc.archive, b).None?)
            && (b in fs.files ==> b in r.fs.files && r.fs.files[b] == fs.files[b])
            && (!Exists(fs, b) && r.exit != Crashed ==> b in r.fs.files && r.fs.files[b] == fs.files[loc.archive])
  {
    var k := Located(fs, inv.hydraPath.value, loc);
    OwnPathsApart(inv.hydraPath.value, k);
    var b := BackupPath(loc.archive);
    match Backup(fs, loc.archive)
    case Thrown(_) =>
    case Ok(_, fs1) =>
      assert b in fs.files ==> b in fs1.files && fs1.files[b] == fs.files[b];
      assert !Exists(fs, b) ==> b in fs1.files && fs1.files[b] == fs.files[loc.archive];
      PatchAsarKeeps(fs1, loc, inv.config, false, extract, pack, b);
  }

  /** `patchAsar` writes no file but the archive and the scratch directory. */
  lemma PatchAsarKeeps(fs: Fs, loc: Location, config: Config, dryRun: bool,
                       extract: Bytes -> Option<Node>, pack: Node -> Option<Bytes>, p: string)
    requires p != loc.archive && p != TempDir(loc)
    ensures var o := PatchAsarSpec(fs, loc, config, dryRun, extract, pack);
            && (p in o.fs.files <==> p in fs.files)
            && (p in fs.files ==> o.fs.files[p] == fs.files[p])
  {
  }

  // ---------------------------------------------------------------------
  // The methods

  /** `findAsarPath`: the first of the three candidates that exists. */
  method FindAsarPath(disk: Disk, hydraPath: string) returns (r: Option<Location>)
    ensures r == FirstExisting(disk.State(), Candidates(hydraPath))
  {
    var possible := Candidates(hydraPath);
    for i := 0 to |possible|
      invariant FirstExisting(disk.State(), possible[i..]) == FirstExisting(disk.State(), possible)
    {
      assert possible[i..][1..] == possible[i + 1..];
      if disk.ExistsSync(possible[i].archive) {
        return Some(possible[i]);
      }
    }
    return None;
  }

  /** `createBackup`: `None` where the copy throws. */
  method CreateBackup(disk: Disk, archive: string) returns (r: Option<string>)
    modifies disk
    ensures r == Value(Backup(old(disk.State()), archive))
    ensures disk.State() == Backup(old(disk.State()), archive).fs
  {
    var backupPath := BackupPath(archive);
    if !disk.ExistsSync(backupPath) {
      var ok := disk.CopyFileSync(archive, backupPath);
      if !ok {
        return None;
      }
    }
    return Some(backupPath);
  }

  /** `restoreBackup`: `None` where the copy throws. */
  method RestoreBackup(disk: Disk, archive: string) returns (r: Option<bool>)
    modifies disk
    ensures r == Value(Restore(old(disk.State()), archive))
    ensures disk.State() == Restore(old(disk.State()), archive).fs
  {
    var backupPath := BackupPath(archive);
    if disk.ExistsSync(backupPath) {
      var ok := disk.CopyFileSync(backupPath, archive);
      if !ok {
        return None;
      }
      return Some(true);
    } else {
      return Some(false);
    }
  }

  /** `patchAsar`: `None` where a step throws. */
  method PatchAsar(disk: Disk, loc: Location, config: Config, dryRun: bool,
                   extract: Bytes -> Option<Node>, pack: Node -> Option<Bytes>) returns (r: Option<nat>)
    requires ExtractsTrees(extract)
    modifies disk
    ensures r == Value(PatchAsarSpec(old(disk.State()), loc, config, dryRun, extract, pack))
    ensures disk.State() == PatchAsarSpec(old(disk.State()), loc, config, dryRun, extract, pack).fs
  {
    var tempDir := TempDir(loc);
    ghost var before := disk.State();
    var extracted := disk.ExtractAll(loc.archive, tempDir, extract);
    if !extracted {
      return None;
    }
    var tree := disk.trees[tempDir];
    r := ScanAndRepack(disk, loc, tree, config, dryRun, pack, before);
  }

  /** `patchAsar` after extraction: list, scan, repack if needed, and remove the scratch directory. */
  method ScanAndRepack(disk: Disk, loc: Location, tree: Node, config: Config, dryRun: bool,
                       pack: Node -> Option<Bytes>, ghost before: Fs) returns (r: Option<nat>)
    requires WellFormed(tree)
    requires disk.State() == before.(trees := before.trees[TempDir(loc) := tree])
    modifies disk
    ensures r == Value(PatchExtracted(before, loc, tree, config, dryRun, pack))
    ensures disk.State() == PatchExtracted(before, loc, tree, config, dryRun, pack).fs
  {
    var tempDir := TempDir(loc);
    var jsFiles := FindJsFiles(tree, [], []);
    var totalChanges := ScanFiles(disk, tempDir, tree, jsFiles, config, dryRun);
    ghost var s := Scan(tree, jsFiles, config, dryRun);
    assert disk.trees == before.trees[tempDir := s.tree];
    if !dryRun && totalChanges > 0 {
      var packed := disk.CreatePackage(tempDir, loc.archive, pack);
      if !packed {
        return None;
      }
    }
    disk.RmSync(tempDir);
    return Some(totalChanges);
  }

  /** The loop of `patchAsar` over the listed script files of the scratch directory `tempDir`. */
  method ScanFiles(disk: Disk, tempDir: string, tree: Node, jsFiles: seq<Path>, config: Config, dryRun: bool)
    returns (totalChanges: nat)
    requires WellFormed(tree) && jsFiles == JsFiles(tree, [])
    requires tempDir in disk.trees && disk.trees[tempDir] == tree
    modifies disk
    ensures disk.files == old(disk.files) && disk.dirs == old(disk.dirs)
    ensures disk.trees == old(disk.trees)[tempDir := Scan(tree, jsFiles, config, dryRun).tree]
    ensures totalChanges == Scan(tree, jsFiles, config, dryRun).total
  {
    totalChanges := 0;
    for i := 0 to |jsFiles|
      invariant disk.files == old(disk.files) && disk.dirs == old(disk.dirs)
      invariant disk.trees == old(disk.trees)[tempDir := Scan(tree, jsFiles[..i], config, dryRun).tree]
      invariant totalChanges == Scan(tree, jsFiles[..i], config, dryRun).total
    {
      var jsFile := jsFiles[i];
      ghost var s := Scan(tree, jsFiles[..i], config, dryRun);
      ReadableWhileScanning(tree, jsFiles, i, config, dryRun);
      ScanNext(tree, jsFiles, i, config, dryRun);
      totalChanges := ScanOne(disk, tempDir, jsFile, config, dryRun, totalChanges, s, old(disk.trees));
    }
    assert jsFiles[..|jsFiles|] == jsFiles;
  }

  /** One iteration of the loop of `patchAsar`, from the scan state `s`. */
  method ScanOne(disk: Disk, tempDir: string, jsFile: Path, config: Config, dryRun: bool,
                 total: nat, ghost s: ScanState, ghost base: map<string, Node>) returns (totalChanges: nat)
    requires total == s.total
    requires disk.trees == base[tempDir := s.tree] && FileAt(s.tree, jsFile).Some?
    modifies disk
    ensures disk.files == old(disk.files) && disk.dirs == old(disk.dirs)
    ensures disk.trees == base[tempDir := ScanFile(s, jsFile, config, dryRun).tree]
    ensures totalChanges == ScanFile(s, jsFile, config, dryRun).total
  {
    totalChanges := total;
    var content := disk.ReadFileSync(tempDir, jsFile);
    var result := PatchContent(content, config, dryRun);
    if result.changeCount > 0 {
      if !dryRun {
        disk.WriteFileSync(tempDir, jsFile, result.patchedContent);
      }
      totalChanges := totalChanges + result.changeCount;
    }
  }

  /** The scan up to file `i + 1` is the scan up to file `i` followed by file `i`. */
  lemma ScanNext(tree: Node, files: seq<Path>, i: nat, config: Config, dryRun: bool)
    requires i < |files|
    ensures Scan(tree, files[..i + 1], config, dryRun)
            == ScanFile(Scan(tree, files[..i], config, dryRun), files[i], config, dryRun)
  {
    assert files[..i + 1][..i] == files[..i];
  }

  /** The `i`-th listed file is still there to be read when the scan reaches it. */
  lemma ReadableWhileScanning(tree: Node, jsFiles: seq<Path>, i: nat, config: Config, dryRun: bool)
    requires WellFormed(tree) && jsFiles == JsFiles(tree, []) && i < |jsFiles|
    ensures FileAt(Scan(tree, jsFiles[..i], config, dryRun).tree, jsFiles[i]).Some?
  {
    var f := jsFiles[i];
    ListedOnce(tree, []);
    assert Distinct(jsFiles[..i]);
    assert f !in jsFiles[..i];
    ScanEffect(tree, jsFiles[..i], config, dryRun);
    assert [] + f == f;
    ListedIffScript(tree, [], f);
  }

  /** `main`, once its arguments are parsed. */
  method PatchHydra(disk: Disk, inv: Invocation, extract: Bytes -> Option<Node>, pack: Node -> Option<Bytes>)
    returns (exit: Exit)
    requires ExtractsTrees(extract)
    modifies disk
    ensures exit == MainSpec(old(disk.State()), inv, extract, pack).exit
    ensures disk.State() == MainSpec(old(disk.State()), inv, extract, pack).fs
  {
    if inv.hydraPath.None? || inv.hydraPath.value == "" {
      return MissingPath;
    }
    var hydraPath := inv.hydraPath.value;
    if !disk.ExistsSync(hydraPath) {
      return PathNotFound;
    }
    var asarPath := FindAsarPath(disk, hydraPath);
    if asarPath.None? {
      return ArchiveNotFound;
    }
    var loc := asarPath.value;
    if inv.restore {
      var restored := RestoreBackup(disk, loc.archive);
      return if restored.Some? then RestoreDone(restored.value) else Crashed;
    }
    if !inv.dryRun {
      var backup := CreateBackup(disk, loc.archive);
      if backup.None? {
        return Crashed;
      }
    }
    var total := PatchAsar(disk, loc, inv.config, inv.dryRun, extract, pack);
    return if total.Some? then Patched(total.value) else PatchFailed;
  }
}
