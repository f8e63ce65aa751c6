/** The migration script (src/migrate.py): archive the flat-layout files into
    subdirectories under new, time-stamped names, optionally removing the
    originals. The filesystem is a class holding files, directories and the
    operations applied to it. */
module Migrate {
  import opened Wrappers

  /** `posixpath.join(a, b)`: an absolute `b` replaces `a`; otherwise one '/' is put
      between them unless `a` is empty or already ends with one. */
  function Join(a: string, b: string): string {
    if |b| > 0 && b[0] == '/' then b
    else if a == [] || a[|a| - 1] == '/' then a + b
    else a + "/" + b
  }

  /** A relative `b` ends up after `a`, with at most one '/' between them. */
  lemma JoinShape(a: string, b: string)
    ensures |b| > 0 && b[0] == '/' ==> Join(a, b) == b
    ensures !(|b| > 0 && b[0] == '/') ==>
      var r := Join(a, b);
      |a| + |b| <= |r| <= |a| + |b| + 1 && r[..|a|] == a && r[|r| - |b|..] == b
  {
  }

  /** `s.rfind(c)`: the last index holding `c`. */
  function LastIndexOf(s: string, c: char): (r: Option<nat>)
    ensures r.Some? ==> r.value < |s| && s[r.value] == c && c !in s[r.value + 1..]
    ensures r.None? ==> c !in s
  {
    if s == [] then None
    else if s[|s| - 1] == c then Some(|s| - 1)
    else LastIndexOf(s[..|s| - 1], c)
  }

  /** Nothing but '.' characters. */
  predicate OnlyDots(s: string) {
    s == [] || (s[0] == '.' && OnlyDots(s[1..]))
  }

  /** `posixpath.splitext(p)`: the extension runs from the last '.' to the end, when
      that '.' is in the last path component and something other than '.' comes
      before it there (so `.env` has no extension); otherwise it is empty. */
  function SplitExt(p: string): (r: (string, string))
    ensures r.0 + r.1 == p
    ensures r.1 == [] || (r.1[0] == '.' && '.' !in r.1[1..] && '/' !in r.1)
  {
    var sep := if LastIndexOf(p, '/').Some? then LastIndexOf(p, '/').value as int else -1;
    match LastIndexOf(p, '.')
    case None => (p, [])
    case Some(dot) =>
      if dot > sep && !OnlyDots(p[sep + 1..dot]) then
        assert p == p[..dot] + p[dot..];
        (p[..dot], p[dot..])
      else (p, [])
  }

  /** The archive name of a file: its stem, '_', the time stamp, its extension. */
  function ArchiveName(filename: string, timestamp: string): string {
    SplitExt(filename).0 + "_" + timestamp + SplitExt(filename).1
  }

  /** Taking the '_' and the time stamp back out of an archive name gives the
      original file name. */
  lemma ArchiveNameRecoversOriginal(filename: string, timestamp: string)
    ensures var stem := SplitExt(filename).0;
            var a := ArchiveName(filename, timestamp);
            |a| == |filename| + 1 + |timestamp|
            && a[..|stem|] + a[|stem| + 1 + |timestamp|..] == filename
            && a[|stem|..|stem| + 1 + |timestamp|] == "_" + timestamp
  {
    var stem, ext := SplitExt(filename).0, SplitExt(filename).1;
    var mid := "_" + timestamp;
    var a := ArchiveName(filename, timestamp);
    assert stem + ext == filename;
    assert a == stem + mid + ext;
    ThreePieces(stem, mid, ext);
  }

  /** The three pieces of a concatenation can be cut back out of it. */
  lemma ThreePieces(x: string, y: string, z: string)
    ensures var a := x + y + z;
            a[..|x|] == x && a[|x|..|x| + |y|] == y && a[|x| + |y|..] == z
  {
    var a := x + y + z;
    assert a == x + (y + z);
    assert a[..|x|] == x;
    assert a[|x|..] == y + z;
    assert a[|x|..][..|y|] == y;
    assert a[|x|..][|y|..] == z;
  }

  /** Where a file is archived: `join(archive_base, subdir, archive name)`. */
  function TargetPath(archiveBase: string, subdir: string, filename: string, timestamp: string): string {
    Join(Join(archiveBase, subdir), ArchiveName(filename, timestamp))
  }

  /** An entry of `ORIGINAL_FILES`. */
  datatype Original = Original(file: string, subdir: string)

  const OriginalFiles: seq<Original> := [
    Original("database_service.py", "database_versions"),
    Original("generate_env.py", "env_files"),
    Original("validate_config.py", "env_files")
  ]

  const ArchiveSubdirs: seq<string> := ["database_versions", "deploy_configs", "docker_files", "env_files"]

  /** Every file is archived into one of the directories `ensure_archive_dirs` makes. */
  lemma OriginalsGoToArchiveSubdirs()
    ensures forall i :: 0 <= i < |OriginalFiles| ==> OriginalFiles[i].subdir in ArchiveSubdirs
  {
  }

  /** A filesystem operation, as the script performs them. */
  datatype FsOp = MakeDirs(path: string) | Copy(source: string, target: string) | Remove(path: string)

  /** The part of the filesystem the script touches. */
  class FileSystem {
    var files: map<string, string>
    var dirs: set<string>
    var history: seq<FsOp>

    constructor (files0: map<string, string>, dirs0: set<string>)
      ensures files == files0 && dirs == dirs0 && history == []
    {
      files := files0;
      dirs := dirs0;
      history := [];
    }

    /** `os.makedirs(path, exist_ok=True)`. */
    method MakeDirs(path: string)
      modifies this
      ensures dirs == old(dirs) + {path} && files == old(files)
      ensures history == old(history) + [FsOp.MakeDirs(path)]
    {
      dirs := dirs + {path};
      history := history + [FsOp.MakeDirs(path)];
    }

    /** `shutil.copy2(source, target)`. */
    method Copy(source: string, target: string)
      requires source in files
      modifies this
      ensures files == old(files)[target := old(files)[source]] && dirs == old(dirs)
      ensures history == old(history) + [FsOp.Copy(source, target)]
    {
      files := files[target := files[source]];
      history := history + [FsOp.Copy(source, target)];
    }

    /** `os.remove(path)`. */
    method Remove(path: string)
      requires path in files
      modifies this
      ensures files == old(files) - {path} && dirs == old(dirs)
      ensures history == old(history) + [FsOp.Remove(path)]
    {
      files := files - {path};
      history := history + [FsOp.Remove(path)];
    }
  }

  /** The directories `ensure_archive_dirs` makes, in order. */
  function SubdirOps(archiveBase: string, subdirs: seq<string>): seq<FsOp>
  {
    if subdirs == [] then []
    else SubdirOps(archiveBase, subdirs[..|subdirs| - 1]) + [FsOp.MakeDirs(Join(archiveBase, subdirs[|subdirs| - 1]))]
  }

  /** One `makedirs` per subdirectory, in the order given. */
  lemma {:induction false} SubdirOpsInOrder(archiveBase: string, subdirs: seq<string>)
    ensures |SubdirOps(archiveBase, subdirs)| == |subdirs|
    ensures forall i :: 0 <= i < |subdirs| ==> SubdirOps(archiveBase, subdirs)[i] == FsOp.MakeDirs(Join(archiveBase, subdirs[i]))
    decreases |subdirs|
  {
    if subdirs != [] {
      var init := subdirs[..|subdirs| - 1];
      SubdirOpsInOrder(archiveBase, init);
      forall i | 0 <= i < |init| ensures init[i] == subdirs[i] { }
    }
  }

  /** The paths of the given subdirectories under the base. */
  function SubdirPaths(archiveBase: string, subdirs: seq<string>): set<string>
  {
    if subdirs == [] then {}
    else SubdirPaths(archiveBase, subdirs[..|subdirs| - 1]) + {Join(archiveBase, subdirs[|subdirs| - 1])}
  }

  /** A path is made exactly when it is the base joined with one of the subdirectories. */
  lemma {:induction false} SubdirPathsMembers(archiveBase: string, subdirs: seq<string>)
    ensures forall p :: p in SubdirPaths(archiveBase, subdirs) <==> exists i :: 0 <= i < |subdirs| && p == Join(archiveBase, subdirs[i])
    decreases |subdirs|
  {
    if subdirs != [] {
      var n := |subdirs| - 1;
      var init := subdirs[..n];
      SubdirPathsMembers(archiveBase, init);
      forall p ensures p in SubdirPaths(archiveBase, subdirs) <==> exists i :: 0 <= i < |subdirs| && p == Join(archiveBase, subdirs[i]) {
        if exists i :: 0 <= i < n && p == Join(archiveBase, init[i]) {
          var i :| 0 <= i < n && p == Join(archiveBase, init[i]);
          assert subdirs[i] == init[i];
        }
        if exists i :: 0 <= i < |subdirs| && p == Join(archiveBase, subdirs[i]) {
          var i :| 0 <= i < |subdirs| && p == Join(archiveBase, subdirs[i]);
          if i < n {
            assert init[i] == subdirs[i];
          }
        }
      }
    }
  }

  /** `ensure_archive_dirs`: make exactly the four subdirectories under the base, in
      order, and hand the base back unchanged. */
  method EnsureArchiveDirs(fs: FileSystem, archiveBase: string) returns (r: string)
    modifies fs
    ensures r == archiveBase
    ensures fs.files == old(fs.files)
    ensures fs.dirs == old(fs.dirs) + SubdirPaths(archiveBase, ArchiveSubdirs)
    ensures fs.history == old(fs.history) + SubdirOps(archiveBase, ArchiveSubdirs)
  {
    MakeEach(fs, archiveBase, ArchiveSubdirs);
    r := archiveBase;
  }

  /** The loop of `ensure_archive_dirs` over a list of subdirectories. */
  method MakeEach(fs: FileSystem, archiveBase: string, subdirs: seq<string>)
    modifies fs
    ensures fs.files == old(fs.files)
    ensures fs.dirs == old(fs.dirs) + SubdirPaths(archiveBase, subdirs)
    ensures fs.history == old(fs.history) + SubdirOps(archiveBase, subdirs)
  {
    ghost var dirs0, history0 := fs.dirs, fs.history;
    var i := 0;
    while i < |subdirs|
      invariant 0 <= i <= |subdirs|
      invariant fs.files == old(fs.files)
      invariant fs.dirs == dirs0 + SubdirPaths(archiveBase, subdirs[..i])
      invariant fs.history == history0 + SubdirOps(archiveBase, subdirs[..i])
    {
      var path := Join(archiveBase, subdirs[i]);
      assert subdirs[..i + 1][..i] == subdirs[..i];
      assert SubdirPaths(archiveBase, subdirs[..i + 1]) == SubdirPaths(archiveBase, subdirs[..i]) + {path};
      assert SubdirOps(archiveBase, subdirs[..i + 1]) == SubdirOps(archiveBase, subdirs[..i]) + [FsOp.MakeDirs(path)];
      fs.MakeDirs(path);
      i := i + 1;
    }
    assert subdirs[..|subdirs|] == subdirs;
  }

  /** The directories made are exactly the four archive subdirectories. */
  lemma FourArchiveDirs(archiveBase: string)
    ensures SubdirPaths(archiveBase, ArchiveSubdirs) ==
      {Join(archiveBase, "database_versions"), Join(archiveBase, "deploy_configs"),
       Join(archiveBase, "docker_files"), Join(archiveBase, "env_files")}
  {
    var s := ArchiveSubdirs;
    assert s[..3][..2] == s[..2] && s[..2][..1] == s[..1] && s[..1][..0] == [];
    assert SubdirPaths(archiveBase, s[..1]) == {Join(archiveBase, s[0])};
    assert SubdirPaths(archiveBase, s[..2]) == SubdirPaths(archiveBase, s[..1]) + {Join(archiveBase, s[1])};
    assert SubdirPaths(archiveBase, s[..3]) == SubdirPaths(archiveBase, s[..2]) + {Join(archiveBase, s[2])};
    assert SubdirPaths(archiveBase, s) == SubdirPaths(archiveBase, s[..3]) + {Join(archiveBase, s[3])};
  }

  /** Where one entry of the list is copied from and to. */
  datatype Move = Move(source: string, target: string)

  function MoveOf(o: Original, currentDir: string, archiveBase: string, timestamp: string): Move {
    Move(Join(currentDir, o.file), TargetPath(archiveBase, o.subdir, o.file, timestamp))
  }

  /** The moves of a list of entries, in list order. */
  function Moves(originals: seq<Original>, currentDir: string, archiveBase: string, timestamp: string): (ms: seq<Move>)
    ensures |ms| == |originals|
  {
    seq(|originals|, i requires 0 <= i < |originals| => MoveOf(originals[i], currentDir, archiveBase, timestamp))
  }

  /** The operations and resulting files of archiving the files one by one: a file
      that does not exist (at that point) is skipped; one that does is copied to
      its target and then, only when `removeOriginals` holds, removed. */
  datatype Outcome = Outcome(ops: seq<FsOp>, files: map<string, string>)

  function ArchiveOne(files: map<string, string>, m: Move, removeOriginals: bool): Outcome {
    if m.source in files then
      var copied := files[m.target := files[m.source]];
      if removeOriginals then Outcome([FsOp.Copy(m.source, m.target), FsOp.Remove(m.source)], copied - {m.source})
      else Outcome([FsOp.Copy(m.source, m.target)], copied)
    else Outcome([], files)
  }

  function Archived(files: map<string, string>, moves: seq<Move>, removeOriginals: bool): Outcome {
    if moves == [] then Outcome([], files)
    else
      var before := Archived(files, moves[..|moves| - 1], removeOriginals);
      var last := ArchiveOne(before.files, moves[|moves| - 1], removeOriginals);
      Outcome(before.ops + last.ops, last.files)
  }

  /** The body of the loop in `archive_files` once the paths are known: back up
      the file if it exists, then remove it when asked to. */
  method ArchiveOneFile(fs: FileSystem, sourcePath: string, targetPath: string, removeOriginals: bool)
    modifies fs
    ensures fs.dirs == old(fs.dirs)
    ensures fs.history == old(fs.history) + ArchiveOne(old(fs.files), Move(sourcePath, targetPath), removeOriginals).ops
    ensures fs.files == ArchiveOne(old(fs.files), Move(sourcePath, targetPath), removeOriginals).files
  {
    if sourcePath in fs.files {
      fs.Copy(sourcePath, targetPath);
      if removeOriginals {
        fs.Remove(sourcePath);
      }
    }
  }

  /** `archive_files`, with `dirname(__file__)` and the clock as parameters. */
  method ArchiveFiles(fs: FileSystem, currentDir: string, archiveBase: string, removeOriginals: bool, timestamp: string)
    modifies fs
    ensures fs.dirs == old(fs.dirs)
    ensures var out := Archived(old(fs.files), Moves(OriginalFiles, currentDir, archiveBase, timestamp), removeOriginals);
            fs.history == old(fs.history) + out.ops && fs.files == out.files
  {
    ArchiveEach(fs, OriginalFiles, currentDir, archiveBase, removeOriginals, timestamp);
  }

  /** The loop of `archive_files` over a list of entries: each turn computes the
      source path and the archive path of one entry and archives it. */
  method ArchiveEach(fs: FileSystem, originals: seq<Original>, currentDir: string, archiveBase: string,
                     removeOriginals: bool, timestamp: string)
    modifies fs
    ensures fs.dirs == old(fs.dirs)
    ensures var out := Archived(old(fs.files), Moves(originals, currentDir, archiveBase, timestamp), removeOriginals);
            fs.history == old(fs.history) + out.ops && fs.files == out.files
  {
    ghost var moves := Moves(originals, currentDir, archiveBase, timestamp);
    ghost var files0, history0 := fs.files, fs.history;
    var i := 0;
    while i < |originals|
      invariant 0 <= i <= |originals|
      invariant fs.dirs == old(fs.dirs)
      invariant fs.history == history0 + Archived(files0, moves[..i], removeOriginals).ops
      invariant fs.files == Archived(files0, moves[..i], removeOriginals).files
    {
      var fileInfo := originals[i];
      var filename := fileInfo.file;
      var subdir := fileInfo.subdir;
      var sourcePath := Join(currentDir, filename);
      var targetPath := Join(Join(archiveBase, subdir), ArchiveName(filename, timestamp));
      assert moves[i] == Move(sourcePath, targetPath);
      ghost var histBefore, filesBefore := fs.history, fs.files;
      ArchiveOneFile(fs, sourcePath, targetPath, removeOriginals);
      ArchivedStep(files0, moves, i, removeOriginals, history0, histBefore, filesBefore, fs.history, fs.files);
      i := i + 1;
    }
    assert moves[..|moves|] == moves;
  }

  /** Archiving move `i` after the first `i` extends the outcome of those to the
      first `i + 1`. */
  lemma ArchivedStep(files0: map<string, string>, moves: seq<Move>, i: nat, removeOriginals: bool,
                     history0: seq<FsOp>, histBefore: seq<FsOp>, filesBefore: map<string, string>,
                     histAfter: seq<FsOp>, filesAfter: map<string, string>)
    requires i < |moves|
    requires histBefore == history0 + Archived(files0, moves[..i], removeOriginals).ops
    requires filesBefore == Archived(files0, moves[..i], removeOriginals).files
    requires histAfter == histBefore + ArchiveOne(filesBefore, moves[i], removeOriginals).ops
    requires filesAfter == ArchiveOne(filesBefore, moves[i], removeOriginals).files
    ensures histAfter == history0 + Archived(files0, moves[..i + 1], removeOriginals).ops
    ensures filesAfter == Archived(files0, moves[..i + 1], removeOriginals).files
  {
    assert moves[..i + 1][..i] == moves[..i];
    var before := Archived(files0, moves[..i], removeOriginals);
    var step := ArchiveOne(filesBefore, moves[i], removeOriginals);
    assert Archived(files0, moves[..i + 1], removeOriginals) == Outcome(before.ops + step.ops, step.files);
    assert history0 + before.ops + step.ops == history0 + (before.ops + step.ops);
  }

  /** Every removal directly follows the copy of the same file. */
  predicate RemovalsFollowCopies(ops: seq<FsOp>) {
    forall j :: 0 <= j < |ops| && ops[j].Remove? ==> j > 0 && ops[j - 1].Copy? && ops[j - 1].source == ops[j].path
  }

  lemma {:induction false} ArchivedRemovesOnlyAfterCopy(files: map<string, string>, moves: seq<Move>, removeOriginals: bool)
    ensures var ops := Archived(files, moves, removeOriginals).ops;
            RemovalsFollowCopies(ops) && (!removeOriginals ==> forall j :: 0 <= j < |ops| ==> !ops[j].Remove?)
    decreases |moves|
  {
    if moves != [] {
      var init := moves[..|moves| - 1];
      ArchivedRemovesOnlyAfterCopy(files, init, removeOriginals);
      var before := Archived(files, init, removeOriginals);
      var last := ArchiveOne(before.files, moves[|moves| - 1], removeOriginals);
      ArchiveOneOps(before.files, moves[|moves| - 1], removeOriginals);
      RemovalsConcat(before.ops, last.ops);
    }
  }

  /** One file's operations: a copy, then possibly its removal. */
  lemma ArchiveOneOps(files: map<string, string>, m: Move, removeOriginals: bool)
    ensures var ops := ArchiveOne(files, m, removeOriginals).ops;
            RemovalsFollowCopies(ops) && (|ops| > 0 ==> ops[0].Copy?)
            && (!removeOriginals ==> forall j :: 0 <= j < |ops| ==> !ops[j].Remove?)
  {
  }

  /** Gluing two runs whose second does not start with a removal keeps every
      removal right after its copy. */
  lemma RemovalsConcat(a: seq<FsOp>, b: seq<FsOp>)
    requires RemovalsFollowCopies(a) && RemovalsFollowCopies(b) && (|b| > 0 ==> !b[0].Remove?)
    ensures RemovalsFollowCopies(a + b)
  {
    forall j | 0 <= j < |a + b| && (a + b)[j].Remove?
      ensures j > 0 && (a + b)[j - 1].Copy? && (a + b)[j - 1].source == (a + b)[j].path
    {
      if j >= |a| {
        assert (a + b)[j] == b[j - |a|];
        assert (a + b)[j - 1] == b[j - 1 - |a|];
      }
    }
  }

  /** A file that is not there when its turn comes adds no operation and changes
      nothing; one that is there is copied to its archive path. */
  lemma ArchiveOneCases(files: map<string, string>, o: Original, currentDir: string, archiveBase: string,
                        removeOriginals: bool, timestamp: string)
    ensures var m := MoveOf(o, currentDir, archiveBase, timestamp);
            var out := ArchiveOne(files, m, removeOriginals);
            var source := Join(currentDir, o.file);
            var target := TargetPath(archiveBase, o.subdir, o.file, timestamp);
            (source !in files ==> out == Outcome([], files))
            && (source in files ==>
                  out.ops[0] == FsOp.Copy(source, target)
                  && (removeOriginals <==> |out.ops| == 2)
                  && (removeOriginals ==> out.ops[1] == FsOp.Remove(source) && source !in out.files)
                  && (!removeOriginals || source != target ==>
                        target in out.files && out.files[target] == files[source]))
  {
  }
}
