/**
  The part of the disk the patcher touches: regular files with their bytes,
  directories, and scratch directories holding the tree an archive was
  extracted into. `Fs` is a snapshot of it as a value; `Disk` is the disk
  itself, whose methods are the `fs` calls the patcher makes.
 */
module FileSystem {
  import opened Wrappers
  import opened ScratchTree

  type Bytes = seq<bv8>

  datatype Fs = Fs(files: map<string, Bytes>, dirs: set<string>, trees: map<string, Node>)

  /** `existsSync`: a file or a directory of that name. */
  predicate Exists(fs: Fs, p: string) {
    p in fs.files || p in fs.dirs || p in fs.trees
  }

  /**
    `copyFileSync`, `None` where it throws: the source is not a regular
    file, or the destination is a directory.
   */
  function CopyFile(fs: Fs, src: string, dst: string): Option<Fs> {
    if src in fs.files && dst !in fs.dirs && dst !in fs.trees
    then Some(fs.(files := fs.files[dst := fs.files[src]]))
    else None
  }

  /** `rmSync(p, { recursive: true, force: true })`: whatever is at `p` is gone. */
  function Remove(fs: Fs, p: string): Fs {
    Fs(fs.files - {p}, fs.dirs - {p}, fs.trees - {p})
  }

  /** An archive reader whose trees are real directory trees. */
  ghost predicate ExtractsTrees(extract: Bytes -> Option<Node>) {
    forall b :: extract(b).Some? ==> WellFormed(extract(b).value)
  }

  class Disk {
    var files: map<string, Bytes>
    var dirs: set<string>
    var trees: map<string, Node>

    function State(): Fs
      reads this
    {
      Fs(files, dirs, trees)
    }

    constructor (fs: Fs)
      ensures State() == fs
    {
      files, dirs, trees := fs.files, fs.dirs, fs.trees;
    }

    predicate ExistsSync(p: string)
      reads this
    {
      Exists(State(), p)
    }

    /** Copies `src` over `dst`; `ok` is false where `copyFileSync` throws, and then nothing changed. */
    method CopyFileSync(src: string, dst: string) returns (ok: bool)
      modifies this
      ensures ok == CopyFile(old(State()), src, dst).Some?
      ensures State() == if ok then CopyFile(old(State()), src, dst).value else old(State())
    {
      ok := src in files && dst !in dirs && dst !in trees;
      if ok {
        files := files[dst := files[src]];
      }
    }

    /**
      `asar.extractAll(archive, dir)`: `extract` reads the archive's bytes;
      `ok` is false where it throws (no such file, or an unreadable archive).
     */
    method ExtractAll(archive: string, dir: string, extract: Bytes -> Option<Node>) returns (ok: bool)
      modifies this
      ensures ok == (archive in old(files) && extract(old(files)[archive]).Some?)
      ensures files == old(files) && dirs == old(dirs)
      ensures trees == if ok then old(trees)[dir := extract(old(files)[archive]).value] else old(trees)
    {
      ok := false;
      if archive in files {
        match extract(files[archive]) {
          case None =>
          case Some(tree) =>
            trees := trees[dir := tree];
            ok := true;
        }
      }
    }

    /** `readFileSync` of a file below the scratch directory `dir`. */
    method ReadFileSync(dir: string, p: Path) returns (text: string)
      requires dir in trees && FileAt(trees[dir], p).Some?
      ensures text == FileAt(trees[dir], p).value
    {
      text := FileAt(trees[dir], p).value;
    }

    /** `writeFileSync` of a file below the scratch directory `dir`. */
    method WriteFileSync(dir: string, p: Path, text: string)
      requires dir in trees
      modifies this
      ensures files == old(files) && dirs == old(dirs)
      ensures trees == old(trees)[dir := Put(old(trees)[dir], p, text)]
    {
      trees := trees[dir := Put(trees[dir], p, text)];
    }

    /**
      `asar.createPackage(dir, archive)`: `pack` builds the archive's bytes;
      `ok` is false where it throws.
     */
    method CreatePackage(dir: string, archive: string, pack: Node -> Option<Bytes>) returns (ok: bool)
      requires dir in trees
      modifies this
      ensures ok == pack(old(trees)[dir]).Some?
      ensures dirs == old(dirs) && trees == old(trees)
      ensures files == if ok then old(files)[archive := pack(old(trees)[dir]).value] else old(files)
    {
      match pack(trees[dir]) {
        case None => ok := false;
        case Some(b) =>
          files := files[archive := b];
          ok := true;
      }
    }

    method RmSync(p: string)
      modifies this
      ensures State() == Remove(old(State()), p)
    {
      files, dirs, trees := files - {p}, dirs - {p}, trees - {p};
    }
  }
}
