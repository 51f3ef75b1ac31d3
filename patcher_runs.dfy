/**
  What repeated runs of the patcher on one installation guarantee: the
  first patch run's backup is never overwritten by later runs (of any kind,
  with any targets), the archive is still found where it was, and a restore
  after any number of runs gives back the archive as it was before the
  first patch run.
 */
module PatcherRuns {
  import opened Wrappers
  import opened ScratchTree
  import opened FileSystem
  import opened Patcher
  import Catalog

  /** The disk after running `main` with each invocation in turn. */
  function Runs(fs: Fs, invs: seq<Invocation>, extract: Bytes -> Option<Node>, pack: Node -> Option<Bytes>): Fs {
    if invs == [] then fs
    else MainSpec(Runs(fs, invs[..|invs| - 1], extract, pack), invs[|invs| - 1], extract, pack).fs
  }

  /**
    Where a run for the archive at `loc` may write: the archive, its backup
    and its scratch directory. Everything else stays, the backup keeps its
    bytes once it is a file, and the archive stays a file.
   */
  ghost predicate WithinFootprint(fs: Fs, fs': Fs, loc: Location) {
    var b := BackupPath(loc.archive);
    var t := TempDir(loc);
    && (forall p :: p != loc.archive && p != b && p != t ==> (p in fs'.files <==> p in fs.files))
    && (forall p :: p in fs.files && p != loc.archive && p != b && p != t ==> fs'.files[p] == fs.files[p])
    && (b in fs.files ==> b in fs'.files && fs'.files[b] == fs.files[b])
    && (loc.archive in fs.files ==> loc.archive in fs'.files)
    && (forall p :: p != t ==> (p in fs'.dirs <==> p in fs.dirs))
    && (forall p :: p != t ==> (p in fs'.trees <==> p in fs.trees))
  }

  lemma FootprintChain(fs: Fs, fs1: Fs, fs2: Fs, loc: Location)
    requires WithinFootprint(fs, fs1, loc) && WithinFootprint(fs1, fs2, loc)
    ensures WithinFootprint(fs, fs2, loc)
  {
  }

  lemma BackupFootprint(fs: Fs, loc: Location)
    requires loc.archive != BackupPath(loc.archive)
    ensures WithinFootprint(fs, Backup(fs, loc.archive).fs, loc)
  {
  }

  lemma RestoreFootprint(fs: Fs, loc: Location)
    requires loc.archive != BackupPath(loc.archive)
    ensures WithinFootprint(fs, Restore(fs, loc.archive).fs, loc)
  {
  }

  lemma PatchAsarFootprint(fs: Fs, loc: Location, config: Catalog.Config, dryRun: bool,
                           extract: Bytes -> Option<Node>, pack: Node -> Option<Bytes>)
    requires loc.archive != BackupPath(loc.archive) && BackupPath(loc.archive) != TempDir(loc)
    requires loc.archive != TempDir(loc)
    ensures WithinFootprint(fs, PatchAsarSpec(fs, loc, config, dryRun, extract, pack).fs, loc)
  {
  }

  /** One run with a found archive stays within that archive's footprint. */
  lemma MainFootprint(fs: Fs, inv: Invocation, extract: Bytes -> Option<Node>, pack: Node -> Option<Bytes>,
                      loc: Location)
    requires inv.hydraPath.Some? && FirstExisting(fs, Candidates(inv.hydraPath.value)) == Some(loc)
    ensures WithinFootprint(fs, MainSpec(fs, inv, extract, pack).fs, loc)
  {
    var h := inv.hydraPath.value;
    var k := Located(fs, h, loc);
    OwnPathsApart(h, k);
    var r := MainSpec(fs, inv, extract, pack);
    if h == "" || !Exists(fs, h) {
      assert r.fs == fs;
    } else if inv.restore {
      RestoreFootprint(fs, loc);
    } else {
      var fs1 := if inv.dryRun then fs else Backup(fs, loc.archive).fs;
      BackupFootprint(fs, loc);
      if inv.dryRun || Backup(fs, loc.archive).Ok? {
        PatchAsarFootprint(fs1, loc, inv.config, inv.dryRun, extract, pack);
        FootprintChain(fs, fs1, r.fs, loc);
      }
    }
  }

  /**
    The state repeated runs keep: the install path exists, the archive at
    `loc` is the one found and is a file, and its backup is a file holding
    `original`.
   */
  ghost predicate Settled(fs: Fs, h: string, loc: Location, original: Bytes) {
    && h != "" && Exists(fs, h)
    && FirstExisting(fs, Candidates(h)) == Some(loc)
    && loc.archive in fs.files && loc.archive !in fs.dirs && loc.archive !in fs.trees
    && BackupPath(loc.archive) in fs.files && fs.files[BackupPath(loc.archive)] == original
  }

  /** A footprint-bounded change leaves the install path and the archive found the same. */
  lemma StillLocated(fs: Fs, fs': Fs, h: string, loc: Location)
    requires h != "" && Exists(fs, h) && FirstExisting(fs, Candidates(h)) == Some(loc)
    requires loc.archive in fs.files && WithinFootprint(fs, fs', loc)
    ensures Exists(fs', h) && FirstExisting(fs', Candidates(h)) == Some(loc)
  {
    var cands := Candidates(h);
    var k := Located(fs, h, loc);
    OwnPathsApart(h, k);
    forall j | 0 <= j < k ensures !Exists(fs', cands[j].archive) {
      OtherPathsApart(h, j, k);
    }
    assert Exists(fs', cands[k].archive);
    var r := FirstExisting(fs', cands);
    var i :| 0 <= i < |cands| && r.value == cands[i] && Exists(fs', cands[i].archive)
             && forall j :: 0 <= j < i ==> !Exists(fs', cands[j].archive);
    assert i == k;
  }

  /** Any run of the same installation keeps it settled. */
  lemma RunKeepsSettled(fs: Fs, inv: Invocation, extract: Bytes -> Option<Node>, pack: Node -> Option<Bytes>,
                        h: string, loc: Location, original: Bytes)
    requires Settled(fs, h, loc, original) && inv.hydraPath == Some(h)
    ensures Settled(MainSpec(fs, inv, extract, pack).fs, h, loc, original)
  {
    var fs' := MainSpec(fs, inv, extract, pack).fs;
    MainFootprint(fs, inv, extract, pack, loc);
    StillLocated(fs, fs', h, loc);
    var k := Located(fs, h, loc);
    OwnPathsApart(h, k);
  }

  /** A restore run on a settled installation puts the backed-up bytes back. */
  lemma RestoreSettled(fs: Fs, inv: Invocation, extract: Bytes -> Option<Node>, pack: Node -> Option<Bytes>,
                       h: string, loc: Location, original: Bytes)
    requires Settled(fs, h, loc, original) && inv.hydraPath == Some(h) && inv.restore
    ensures MainSpec(fs, inv, extract, pack).exit == RestoreDone(true)
    ensures loc.archive in MainSpec(fs, inv, extract, pack).fs.files
    ensures MainSpec(fs, inv, extract, pack).fs.files[loc.archive] == original
  {
    RestoreIsTerminal(fs, inv, extract, pack, loc);
  }

  /**
    The first patch run on an installation with no backup yet settles it,
    with the backup holding the archive as it was before that run.
   */
  lemma FirstPatchSettles(fs: Fs, inv: Invocation, extract: Bytes -> Option<Node>, pack: Node -> Option<Bytes>,
                          h: string, loc: Location)
    requires inv.hydraPath == Some(h) && !inv.restore && !inv.dryRun
    requires h != "" && Exists(fs, h) && FirstExisting(fs, Candidates(h)) == Some(loc)
    requires loc.archive in fs.files && loc.archive !in fs.dirs && loc.archive !in fs.trees
    requires !Exists(fs, BackupPath(loc.archive))
    ensures Settled(MainSpec(fs, inv, extract, pack).fs, h, loc, fs.files[loc.archive])
  {
    var fs' := MainSpec(fs, inv, extract, pack).fs;
    var k := Located(fs, h, loc);
    OwnPathsApart(h, k);
    PatchRunBacksUp(fs, inv, extract, pack, loc);
    MainFootprint(fs, inv, extract, pack, loc);
    StillLocated(fs, fs', h, loc);
  }

  /**
    Once the first of a sequence of runs on one installation has patched
    it, the installation stays settled after every later run.
   */
  lemma {:induction false} SettledAfterFirstPatch(fs: Fs, invs: seq<Invocation>, extract: Bytes -> Option<Node>,
                                                  pack: Node -> Option<Bytes>, h: string, loc: Location)
    requires |invs| >= 1 && !invs[0].restore && !invs[0].dryRun
    requires forall i :: 0 <= i < |invs| ==> invs[i].hydraPath == Some(h)
    requires h != "" && Exists(fs, h) && FirstExisting(fs, Candidates(h)) == Some(loc)
    requires loc.archive in fs.files && loc.archive !in fs.dirs && loc.archive !in fs.trees
    requires !Exists(fs, BackupPath(loc.archive))
    ensures Settled(Runs(fs, invs, extract, pack), h, loc, fs.files[loc.archive])
  {
    var init := invs[..|invs| - 1];
    if |invs| == 1 {
      assert Runs(fs, invs, extract, pack) == MainSpec(fs, invs[0], extract, pack).fs;
      FirstPatchSettles(fs, invs[0], extract, pack, h, loc);
    } else {
      assert forall i :: 0 <= i < |init| ==> init[i] == invs[i];
      SettledAfterFirstPatch(fs, init, extract, pack, h, loc);
      RunKeepsSettled(Runs(fs, init, extract, pack), invs[|invs| - 1], extract, pack, h, loc, fs.files[loc.archive]);
    }
  }

  /**
    However many runs follow the first patch run on an installation (patch,
    dry or restore runs, with any targets), the backup still holds the
    archive as it was before that first run, and a restore afterwards
    succeeds and gives those bytes back to the archive.
   */
  lemma RestoreAfterRuns(fs: Fs, invs: seq<Invocation>, last: Invocation,
                         extract: Bytes -> Option<Node>, pack: Node -> Option<Bytes>, h: string, loc: Location)
    requires |invs| >= 1 && !invs[0].restore && !invs[0].dryRun
    requires forall i :: 0 <= i < |invs| ==> invs[i].hydraPath == Some(h)
    requires last.hydraPath == Some(h) && last.restore
    requires h != "" && Exists(fs, h) && FirstExisting(fs, Candidates(h)) == Some(loc)
    requires loc.archive in fs.files && loc.archive !in fs.dirs && loc.archive !in fs.trees
    requires !Exists(fs, BackupPath(loc.archive))
    ensures var before := Runs(fs, invs, extract, pack);
            var r := MainSpec(before, last, extract, pack);
            && BackupPath(loc.archive) in before.files
            && before.files[BackupPath(loc.archive)] == fs.files[loc.archive]
            && r.exit == RestoreDone(true)
            && loc.archive in r.fs.files && r.fs.files[loc.archive] == fs.files[loc.archive]
  {
    SettledAfterFirstPatch(fs, invs, extract, pack, h, loc);
    RestoreSettled(Runs(fs, invs, extract, pack), last, extract, pack, h, loc, fs.files[loc.archive]);
  }
}
