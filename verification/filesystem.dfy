/** The abstract filesystem the generator writes into, and
    `create_style_file`: make the stub's directory, then write the stub only
    when nothing exists at its path yet.

    A filesystem maps a path to a directory or a regular file with its
    content. Directories are explicit because `os.makedirs` fails when an
    ancestor of the requested directory (or the directory itself) is a
    regular file, and `os.path.exists` is true for a directory as well as
    for a file.
 */
module StubFs {
  import opened Layout

  datatype Node = Dir | File(content: string)

  type FileSystem = map<Path, Node>

  /** Why a run stopped: `os.makedirs` met a regular file on the way to
      `dir`, or an HTML file could not be read. */
  datatype Failure = NotADirectory(dir: Path) | CannotRead(file: string)

  /** The state of the filesystem after an operation, and whether the
      operation ended with an exception that stops the program. */
  datatype Outcome = Ok(fs: FileSystem) | Crash(fs: FileSystem, failure: Failure)

  /** `fs'` keeps every entry of `fs` unchanged: nothing was overwritten or removed. */
  ghost predicate Extends(fs: FileSystem, fs': FileSystem) {
    forall p :: p in fs ==> p in fs' && fs'[p] == fs[p]
  }

  /** `p` is `dir` or one of its ancestors below the empty path. */
  predicate IsAncestorOrSelf(p: Path, dir: Path) {
    1 <= |p| <= |dir| && dir[..|p|] == p
  }

  /** `os.makedirs(dir, exist_ok=True)` raises: a regular file sits at `dir`
      or at one of its ancestors. */
  predicate Blocked(fs: FileSystem, dir: Path) {
    exists j :: 1 <= j <= |dir| && dir[..j] in fs && fs[dir[..j]].File?
  }

  /** `os.makedirs(dir, exist_ok=True)` when it succeeds: every missing
      ancestor of `dir`, and `dir` itself, becomes a directory. */
  function MakeDirs(fs: FileSystem, dir: Path): (fs': FileSystem)
    requires !Blocked(fs, dir)
    ensures Extends(fs, fs')
    ensures forall j :: 1 <= j <= |dir| ==> dir[..j] in fs' && fs'[dir[..j]] == Dir
    ensures forall p :: p in fs' && p !in fs ==> IsAncestorOrSelf(p, dir) && fs'[p] == Dir
  {
    var ancestors := set j | 1 <= j <= |dir| :: dir[..j];
    map p | p in fs.Keys + ancestors :: if p in fs then fs[p] else Dir
  }

  /** The stub's directory chain exists as directories and something exists
      at its file path: creating the stub again has nothing left to do. */
  ghost predicate Settled(fs: FileSystem, st: Stub, ext: string) {
    (forall j :: 1 <= j <= |st.dir| ==> st.dir[..j] in fs && fs[st.dir[..j]] == Dir)
    && FilePath(st, ext) in fs
  }

  /** `p` holding `node` is something `create_style_file` makes for `st`:
      a directory on the stub's path or the stub file with its rule. */
  ghost predicate CreatedFor(p: Path, node: Node, st: Stub, ext: string) {
    (node == Dir && IsAncestorOrSelf(p, st.dir))
    || (p == FilePath(st, ext) && node == File(StubContent(st.stem)))
  }

  /** `p` holding `node` is something `create_style_file` makes for one of `stubs`. */
  ghost predicate Created(p: Path, node: Node, stubs: seq<Stub>, ext: string) {
    exists i :: 0 <= i < |stubs| && CreatedFor(p, node, stubs[i], ext)
  }

  /** What was created for a contiguous part of `stubs` was created for `stubs`. */
  lemma CreatedInSlice(p: Path, node: Node, stubs: seq<Stub>, lo: int, hi: int, ext: string)
    requires 0 <= lo <= hi <= |stubs|
    requires Created(p, node, stubs[lo..hi], ext)
    ensures Created(p, node, stubs, ext)
  {
    var i :| 0 <= i < hi - lo && CreatedFor(p, node, stubs[lo..hi][i], ext);
    assert stubs[lo..hi][i] == stubs[lo + i];
  }

  /** Every entry of `fs'` that `fs` lacks was created for one of `stubs`. */
  ghost predicate OnlyCreated(fs: FileSystem, fs': FileSystem, stubs: seq<Stub>, ext: string) {
    forall p :: p in fs' && p !in fs ==> Created(p, fs'[p], stubs, ext)
  }

  /** `create_style_file(st.dir, st.stem)` with `CSS_FILE_EXT` = `ext`. */
  function CreateStyleFile(fs: FileSystem, st: Stub, ext: string): (r: Outcome)
    ensures Extends(fs, r.fs)
    ensures r.Crash? <==> Blocked(fs, st.dir)
    ensures r.Crash? ==> r.fs == fs && r.failure == NotADirectory(st.dir)
    ensures r.Ok? ==> Settled(r.fs, st, ext)
    ensures OnlyCreated(fs, r.fs, [st], ext)
    ensures r.Ok? && FilePath(st, ext) !in fs && st.stem + ext != ""
      ==> r.fs[FilePath(st, ext)] == File(StubContent(st.stem))
  {
    if Blocked(fs, st.dir) then Crash(fs, NotADirectory(st.dir))
    else
      var fs1 := MakeDirs(fs, st.dir);
      var file := FilePath(st, ext);
      MakeDirsCreated(fs, st, ext);
      if file in fs1 then Ok(fs1)
      else
        assert Created(file, File(StubContent(st.stem)), [st], ext) by {
          assert [st][0] == st;
        }
        Ok(fs1[file := File(StubContent(st.stem))])
  }

  lemma MakeDirsCreated(fs: FileSystem, st: Stub, ext: string)
    requires !Blocked(fs, st.dir)
    ensures OnlyCreated(fs, MakeDirs(fs, st.dir), [st], ext)
  {
    var fs1 := MakeDirs(fs, st.dir);
    forall p | p in fs1 && p !in fs ensures Created(p, fs1[p], [st], ext) {
      assert [st][0] == st;
    }
  }

  /** Adding entries never unsettles a stub. */
  lemma SettledGrows(fs: FileSystem, fs': FileSystem, st: Stub, ext: string)
    requires Settled(fs, st, ext) && Extends(fs, fs')
    ensures Settled(fs', st, ext)
  {
  }

  /** On a settled stub `create_style_file` changes nothing. */
  lemma {:induction false} CreateSettledNoop(fs: FileSystem, st: Stub, ext: string)
    requires Settled(fs, st, ext)
    ensures CreateStyleFile(fs, st, ext) == Ok(fs)
  {
    assert !Blocked(fs, st.dir);
    var fs1 := MakeDirs(fs, st.dir);
    assert fs1.Keys == fs.Keys;
    assert fs1 == fs;
  }

  /** Creating a stub twice gives the same outcome as creating it once. */
  lemma {:induction false} CreateIdempotent(fs: FileSystem, st: Stub, ext: string)
    ensures CreateStyleFile(CreateStyleFile(fs, st, ext).fs, st, ext) == CreateStyleFile(fs, st, ext)
  {
    var r := CreateStyleFile(fs, st, ext);
    if r.Ok? {
      CreateSettledNoop(r.fs, st, ext);
    }
  }

  /** A generated stub file is never a directory on the way to another
      generated stub: stub file names start with a name character, the
      directories at that depth with an underscore. */
  lemma {:induction false} FileNeverOnDirPath(root: Path, s1: Stub, s2: Stub, ext: string)
    requires WellShaped(root, s1) && WellShaped(root, s2)
    ensures !IsAncestorOrSelf(FilePath(s1, ext), s2.dir)
  {
    var f := FilePath(s1, ext);
    FilePathOf(s1, ext);
    assert (s1.stem + ext)[0] == s1.stem[0];
  }

  /** Two generated stubs with the same file path have the same stem. */
  lemma SameFileSameStem(root: Path, s1: Stub, s2: Stub, ext: string)
    requires WellShaped(root, s1) && WellShaped(root, s2)
    requires FilePath(s1, ext) == FilePath(s2, ext)
    ensures s1.stem == s2.stem
  {
    FilePathOf(s1, ext);
    FilePathOf(s2, ext);
    var f := FilePath(s1, ext);
    assert f[|f| - 1] == s1.stem + ext && f[|f| - 1] == s2.stem + ext;
    assert s1.stem == (s1.stem + ext)[..|s1.stem|];
    assert |s1.stem| == |s2.stem|;
  }
}
