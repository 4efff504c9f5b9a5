/**
 * The world the dashboards act on: the files and directories below the working
 * directory, the `pathlib` operations the scripts use on paths, and the two external
 * tools (demucs and ffmpeg) as oracles that say how they end and what they write.
 */
module FileSystem {
  import opened Base

  /** A path as its components below the working directory (`BASE_DIR`). */
  type Path = seq<string>

  /** `SRC_DIR`, where downloads go. */
  const SrcDir: Path := ["src"]
  /** `SEPARATED_DIR` (`DEMUCS_OUTPUT_DIR` in src/scripts/app.py): demucs's directory per song. */
  const SeparatedDir: Path := ["separated", "htdemucs"]

  /** The wav files demucs leaves for a song, and the names the scripts give them. */
  const StemFiles: seq<string> := ["vocals.wav", "drums.wav", "bass.wav", "other.wav"]
  const StemKeys: seq<string> := ["vocals", "drums", "bass", "other"]

  /** The `k`-th stem of the song whose directory is `target`. */
  function StemWav(target: Path, k: nat): Path
    requires k < 4
  {
    target + [StemFiles[k]]
  }

  /** Regular files with their contents, and directories. */
  datatype Fs = Fs(files: map<Path, Bytes>, dirs: set<Path>)

  /** `Path.exists()`: true for files and for directories. */
  predicate Exists(fs: Fs, p: Path)
  {
    p in fs.files || p in fs.dirs
  }

  /** `dir / name`; as in `pathlib`, joining an empty string leaves the path as it is. */
  function Join(dir: Path, name: string): Path
  {
    if name == "" then dir else dir + [name]
  }

  /** `Path.name`: the last component. */
  function Name(p: Path): string
  {
    if p == [] then "" else p[|p| - 1]
  }

  /** `Path.parent`. */
  function Parent(p: Path): Path
  {
    if p == [] then [] else p[..|p| - 1]
  }

  /** `str(path)`, relative to the working directory. */
  function Str(p: Path): string
  {
    if p == [] then "." else if |p| == 1 then p[0] else Str(p[..|p| - 1]) + "/" + p[|p| - 1]
  }

  /** Python's `name.rfind('.')`: the last position of a dot, or -1. */
  function LastDot(name: string): (i: int)
    ensures -1 <= i < |name|
    ensures i >= 0 ==> name[i] == '.'
    ensures forall k :: i < k < |name| ==> name[k] != '.'
  {
    if name == [] then -1
    else if name[|name| - 1] == '.' then |name| - 1
    else LastDot(name[..|name| - 1])
  }

  /** `PurePath.suffix` (CPython 3.12): the part from the last dot, unless that dot is first or last. */
  function Suffix(name: string): string
  {
    var i := LastDot(name);
    if 0 < i < |name| - 1 then name[i..] else ""
  }

  /** `PurePath.stem`: the name without its suffix. */
  function StemOf(name: string): string
  {
    var i := LastDot(name);
    if 0 < i < |name| - 1 then name[..i] else name
  }

  /** A name is its stem followed by its suffix; a suffix is a dot and at least one non-dot. */
  lemma StemAndSuffix(name: string)
    ensures StemOf(name) + Suffix(name) == name
    ensures Suffix(name) != "" ==> |Suffix(name)| >= 2 && Suffix(name)[0] == '.' && StemOf(name) != ""
    ensures Suffix(name) != "" ==> forall k :: 1 <= k < |Suffix(name)| ==> Suffix(name)[k] != '.'
  {
    var i := LastDot(name);
    if 0 < i < |name| - 1 {
      assert name[..i] + name[i..] == name;
    }
  }

  /** The suffix of `stem.ext` is `.ext` when `ext` has no dot and `stem` is not empty. */
  lemma SuffixOfDotted(stem: string, ext: string)
    requires stem != [] && ext != [] && '.' !in ext
    ensures Suffix(stem + "." + ext) == "." + ext
    ensures StemOf(stem + "." + ext) == stem
  {
    var n := stem + "." + ext;
    var i := LastDot(n);
    assert n[|stem|] == '.';
    assert forall k :: |stem| < k < |n| ==> n[k] == ext[k - |stem| - 1];
    assert i == |stem|;
    assert n[i..] == "." + ext;
    assert n[..i] == stem;
  }

  /** A name that is `.mp3` alone has no suffix; its stem is the whole name. */
  lemma DotfileStem()
    ensures Suffix(".mp3") == "" && StemOf(".mp3") == ".mp3"
  {
    var n := ".mp3";
    assert n[0] == '.' && n[1] == 'm' && n[2] == 'p' && n[3] == '3';
    assert LastDot(n) == 0;
  }

  /** `Path.with_suffix(sfx)`: the same parent, the stem followed by `sfx`. */
  function WithSuffix(p: Path, sfx: string): Path
    requires p != []
  {
    Parent(p) + [StemOf(Name(p)) + sfx]
  }

  /** `with_suffix` lands on a different path exactly when the suffix changes. */
  lemma WithSuffixMoves(p: Path, sfx: string)
    requires p != []
    ensures WithSuffix(p, sfx) == p <==> Suffix(Name(p)) == sfx
  {
    StemAndSuffix(Name(p));
    var n := Name(p);
    var q := WithSuffix(p, sfx);
    assert p == Parent(p) + [n];
    if q == p {
      assert StemOf(n) + sfx == StemOf(n) + Suffix(n);
      assert sfx == (StemOf(n) + sfx)[|StemOf(n)|..];
    }
  }

  /** Writing (creating or truncating) a regular file. */
  function Write(fs: Fs, p: Path, content: Bytes): Fs
  {
    fs.(files := fs.files[p := content])
  }

  /** `Path.unlink()` on a regular file. */
  function Unlink(fs: Fs, p: Path): Fs
  {
    fs.(files := fs.files - {p})
  }

  /** `src.rename(dst)` for a regular file `src`: its content moves to `dst`. */
  function Rename(fs: Fs, src: Path, dst: Path): Fs
    requires src in fs.files
  {
    fs.(files := fs.files[dst := fs.files[src]] - {src})
  }

  /** `shutil.rmtree(root)`: the directory and everything below it disappear. */
  function RemoveTree(fs: Fs, root: Path): Fs
  {
    Fs(map p | p in fs.files && !(root <= p) :: fs.files[p], set p | p in fs.dirs && !(root <= p))
  }

  /** `rmtree` removes exactly the paths at or below its root and leaves every other file as it was. */
  lemma RemoveTreeRemoves(fs: Fs, root: Path, p: Path)
    ensures Exists(RemoveTree(fs, root), p) <==> Exists(fs, p) && !(root <= p)
    ensures p in RemoveTree(fs, root).files ==> RemoveTree(fs, root).files[p] == fs.files[p]
  {
  }

  /** `fs'` agrees with `fs` on every path outside `touched`. */
  predicate SameExcept(fs: Fs, fs': Fs, touched: set<Path>)
  {
    && fs'.dirs == fs.dirs
    && (forall p :: p in fs.files && p !in touched ==> p in fs'.files && fs'.files[p] == fs.files[p])
    && (forall p :: p in fs'.files && p !in touched ==> p in fs.files)
  }

  /** `p` is the same regular file in both, or a regular file in neither. */
  predicate SameAt(a: Fs, b: Fs, p: Path)
  {
    (p in a.files <==> p in b.files) && (p in a.files ==> b.files[p] == a.files[p])
  }

  /** Two steps that each change only their own paths change only the union. */
  lemma SameExceptChain(a: Fs, b: Fs, c: Fs, t1: set<Path>, t2: set<Path>)
    requires SameExcept(a, b, t1) && SameExcept(b, c, t2)
    ensures SameExcept(a, c, t1 + t2)
  {
  }

  /** Every file and directory below the top level sits in a directory. */
  predicate Rooted(fs: Fs)
  {
    && (forall p {:trigger Parent(p)} :: p in fs.files && |p| > 1 ==> Parent(p) in fs.dirs)
    && (forall p {:trigger Parent(p)} :: p in fs.dirs && |p| > 1 ==> Parent(p) in fs.dirs)
  }

  /** Writing a file into an existing directory keeps the tree rooted. */
  lemma WriteRooted(fs: Fs, p: Path, content: Bytes)
    requires Rooted(fs) && (|p| > 1 ==> Parent(p) in fs.dirs)
    ensures Rooted(Write(fs, p, content))
  {
  }

  /** A path outside the changed ones is as it was. */
  lemma SameOutside(a: Fs, b: Fs, t: set<Path>, p: Path)
    requires SameExcept(a, b, t) && p !in t
    ensures Exists(a, p) <==> Exists(b, p)
    ensures p in a.files <==> p in b.files
    ensures p in a.files ==> b.files[p] == a.files[p]
  {
  }

  // ---------------------------------------------------------------------------
  // The external tools

  /**
   * One ffmpeg run: how it ended and what it left at its output path (the command's last
   * argument); ffmpeg writes nothing else.
   */
  datatype FfmpegRun = FfmpegRun(exit: Exit, output: Option<Bytes>)

  /** The file system after an ffmpeg run whose output path is `out`. */
  function AfterFfmpeg(fs: Fs, out: Path, run: FfmpegRun): Fs
  {
    if run.exit.Exited? && run.output.Some? then Write(fs, out, run.output.value) else fs
  }

  /**
   * An ffmpeg run into `out` followed by deleting `gone`: only those two paths change, `gone`
   * is no file afterwards, and `out` holds what ffmpeg wrote, or is as it was.
   */
  lemma FfmpegThenUnlink(fs: Fs, out: Path, run: FfmpegRun, gone: Path)
    ensures var fs' := Unlink(AfterFfmpeg(fs, out, run), gone);
      && SameExcept(fs, fs', {out, gone})
      && gone !in fs'.files
      && (out != gone ==>
            if run.exit.Exited? && run.output.Some? then out in fs'.files && fs'.files[out] == run.output.value
            else SameAt(fs, fs', out))
  {
  }

  /** One demucs run: how it ended and the files and directories it created. */
  datatype DemucsRun = DemucsRun(exit: Exit, files: map<Path, Bytes>, dirs: set<Path>)

  /** The file system after a demucs run. */
  function AfterDemucs(fs: Fs, run: DemucsRun): Fs
  {
    if run.exit.Exited? then Fs(fs.files + run.files, fs.dirs + run.dirs) else fs
  }
}
