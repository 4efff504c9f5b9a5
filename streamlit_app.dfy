/**
 * src/streamlit.py, the "Demucs Mixer" dashboard: it cleans the project name, downloads
 * the song to `src/<name>.mp3`, runs demucs, re-encodes each of the four stems in place
 * as ADPCM wav, mixes drums and bass into `mixed_audio.wav`, deletes the mp3, and shows
 * a gallery of the song folders that hold a mix, most recently modified first.
 *
 * As in MainApp, the file system is passed along as a value, the tools are oracles and
 * an exception the script does not catch ends the run as `Raised`.
 */
module StreamlitApp {
  import opened Base
  import opened FileSystem
  import opened Fetching
  import CleanName
  import Catalog

  /** `SRC_DIR / f"{music_name}.mp3"`. */
  function SongPath(musicName: string): Path
  {
    SrcDir + [musicName + ".mp3"]
  }

  /**
   * `download_audio`: the shared download routine with `src/<name>.mp3` as destination;
   * the path comes back only for a download that completed.
   */
  method DownloadAudio(fs: Fs, musicName: string, fetch: Fetch) returns (fs': Fs, r: Outcome<Option<Path>>)
    ensures r == Raised <==> SongPath(musicName) in fs.dirs && SongPath(musicName) !in fs.files
    ensures r == Raised ==> fs' == fs
    ensures r.Return? ==> SameExcept(fs, fs', {SongPath(musicName)})
    ensures r.Return? && !(fetch.Response? && fetch.statusOk) ==> SongPath(musicName) !in fs'.files
    ensures r.Return? && r.value.Some? <==> r.Return? && Downloaded(fetch)
    ensures r.Return? && r.value.Some? ==>
      r.value.value == SongPath(musicName) && SongPath(musicName) in fs'.files
      && fs'.files[SongPath(musicName)] == Concat(fetch.chunks)
    ensures r.Return? && r.value.Some? ==> fs' == AfterDownload(fs, SongPath(musicName), fetch)
  {
    fs', r := DownloadTo(fs, SongPath(musicName), fetch);
  }

  /**
   * demucs files the song under the stem of the mp3, and the dashboard looks for it under
   * the project name; the two agree exactly when the name is not empty (`src/.mp3` has
   * the stem `.mp3`, while joining `""` leaves `separated/htdemucs` itself).
   */
  lemma TargetIsDemucsDirectory(musicName: string)
    ensures Join(SeparatedDir, musicName) == Join(SeparatedDir, StemOf(Name(SongPath(musicName))))
            <==> musicName != ""
  {
    if musicName == "" {
      DotfileStem();
      assert "" + ".mp3" == ".mp3";
      assert |Join(SeparatedDir, StemOf(Name(SongPath(musicName))))| == 3;
    } else {
      assert musicName + ".mp3" == musicName + "." + "mp3";
      SuffixOfDotted(musicName, "mp3");
    }
  }

  // ---------------------------------------------------------------------------
  // compress_audio

  /** `file_path.parent / f"{file_path.stem}_compressed.wav"`. */
  function CompressedPath(file: Path): Path
    requires file != []
  {
    Parent(file) + [StemOf(Name(file)) + "_compressed.wav"]
  }

  /** The ffmpeg command that re-encodes `file` as ADPCM. */
  function CompressCommand(file: Path): Cmd
    requires file != []
  {
    ["ffmpeg", "-y", "-i", Str(file), "-c:a", "adpcm_ms", Str(CompressedPath(file))]
  }

  /** The compressed copy never lands on the file itself: a suffix starts with a dot, not `_`. */
  lemma CompressedElsewhere(file: Path)
    requires file != []
    ensures CompressedPath(file) != file
  {
    var n := Name(file);
    var c := StemOf(n) + "_compressed.wav";
    StemAndSuffix(n);
    assert file[|file| - 1] == n;
    assert CompressedPath(file)[|file| - 1] == c;
    if Suffix(n) == "" {
      assert |c| > |n|;
    } else {
      assert c[|StemOf(n)|] == '_';
      assert n[|StemOf(n)|] == Suffix(n)[0] == '.';
    }
  }

  /**
   * `compress_audio` gets to the end: ffmpeg was found, `file` is a regular file that
   * `unlink` can delete, and a compressed file is there to be renamed.
   */
  predicate CompressOk(fs: Fs, file: Path, ffmpeg: Cmd -> FfmpegRun)
    requires file != []
  {
    var run := ffmpeg(CompressCommand(file));
    run.exit.Exited? && file in fs.files && CompressedPath(file) in AfterFfmpeg(fs, CompressedPath(file), run).files
  }

  /** What `file` holds after a successful `compress_audio`: whatever was at the compressed path. */
  function CompressedContent(fs: Fs, file: Path, ffmpeg: Cmd -> FfmpegRun): Bytes
    requires file != [] && CompressOk(fs, file, ffmpeg)
  {
    AfterFfmpeg(fs, CompressedPath(file), ffmpeg(CompressCommand(file))).files[CompressedPath(file)]
  }

  /**
   * `compress_audio`: the file is replaced by its compressed copy, which is renamed onto
   * it; the exit status of ffmpeg is not checked, but a missing binary, an `unlink` that
   * fails and a missing compressed copy all raise; in the last case the file is already
   * deleted, so the stem is lost. Only the file and its copy change.
   */
  method CompressAudio(fs: Fs, file: Path, ffmpeg: Cmd -> FfmpegRun)
    returns (fs': Fs, r: Outcome<()>, ran: seq<Cmd>)
    requires file != []
    ensures ran == [CompressCommand(file)]
    ensures SameExcept(fs, fs', {file, CompressedPath(file)})
    ensures r.Return? <==> CompressOk(fs, file, ffmpeg)
    ensures r.Return? ==>
      file in fs'.files && fs'.files[file] == CompressedContent(fs, file, ffmpeg) && CompressedPath(file) !in fs'.files
    ensures ffmpeg(CompressCommand(file)).exit.NotFound? ==> r == Raised && fs' == fs
    ensures r == Raised && file in fs.files && !ffmpeg(CompressCommand(file)).exit.NotFound? ==> file !in fs'.files
  {
    var c := CompressedPath(file);
    CompressedElsewhere(file);
    var cmd := CompressCommand(file);
    ran := [cmd];
    var run := ffmpeg(cmd);
    if run.exit.NotFound? {
      return fs, Raised, ran;
    }
    fs' := AfterFfmpeg(fs, c, run);
    if file !in fs'.files {
      // `unlink` of a directory raises
      return fs', Raised, ran;
    }
    fs' := Unlink(fs', file);
    if c !in fs'.files {
      return fs', Raised, ran;
    }
    fs' := Rename(fs', c, file);
    r := Return(());
  }

  /** `compress_audio`'s outcome depends only on the file and its compressed path. */
  lemma CompressOkLocal(a: Fs, b: Fs, file: Path, ffmpeg: Cmd -> FfmpegRun)
    requires file != []
    requires forall p :: p == file || p == CompressedPath(file) ==>
      (p in a.files <==> p in b.files) && (p in a.files ==> a.files[p] == b.files[p])
    ensures CompressOk(a, file, ffmpeg) <==> CompressOk(b, file, ffmpeg)
    ensures CompressOk(a, file, ffmpeg) ==> CompressedContent(a, file, ffmpeg) == CompressedContent(b, file, ffmpeg)
  {
  }

  // ---------------------------------------------------------------------------
  // process_demucs

  /** The compressed copy of the `k`-th stem. */
  function StemCompressed(target: Path, k: nat): Path
    requires k < 4
  {
    target + [StemKeys[k] + "_compressed.wav"]
  }

  /** `target_dir / "mixed_audio.wav"`. */
  function MixOutput(target: Path): Path
  {
    target + ["mixed_audio.wav"]
  }

  /** The ffmpeg command that mixes the drums and bass of `target`. */
  function MixWavCommand(target: Path): Cmd
  {
    ["ffmpeg", "-y", "-i", Str(StemWav(target, 1)), "-i", Str(StemWav(target, 2)),
     "-filter_complex", "amix=inputs=2:duration=longest", Str(MixOutput(target))]
  }

  /** The stems and their compressed copies for the first `n` stems. */
  function CompressArea(target: Path, n: nat): set<Path>
    requires n <= 4
  {
    if n == 0 then {} else CompressArea(target, n - 1) + {StemWav(target, n - 1), StemCompressed(target, n - 1)}
  }

  /** The compressions the loop runs: one per stem that exists, in order. */
  function CompressRuns(fs: Fs, target: Path, n: nat): seq<Cmd>
    requires n <= 4
  {
    if n == 0 then []
    else
      CompressRuns(fs, target, n - 1)
      + (if Exists(fs, StemWav(target, n - 1)) then [CompressCommand(StemWav(target, n - 1))] else [])
  }

  /** Each stem's compressed copy is `<key>_compressed.wav` next to it. */
  lemma StemCompresses(target: Path, k: nat)
    requires k < 4
    ensures CompressedPath(StemWav(target, k)) == StemCompressed(target, k)
  {
    assert StemFiles[k] == StemKeys[k] + "." + "wav";
    SuffixOfDotted(StemKeys[k], "wav");
    assert Parent(StemWav(target, k)) == target;
  }

  /** The stem names start with different letters, so the stems, copies and mix all differ. */
  lemma StemPathsDiffer(target: Path, k: nat, j: nat)
    requires k < 4 && j < 4
    ensures k != j ==> StemWav(target, k) != StemWav(target, j) && StemWav(target, k) != StemCompressed(target, j)
    ensures k != j ==> StemCompressed(target, k) != StemCompressed(target, j) && StemCompressed(target, k) != StemWav(target, j)
    ensures StemWav(target, k) != StemCompressed(target, k)
    ensures StemWav(target, k) != MixOutput(target) && StemCompressed(target, k) != MixOutput(target)
  {
    assert StemWav(target, k)[|target|][0] == StemKeys[k][0];
    assert StemCompressed(target, k)[|target|][0] == StemKeys[k][0];
    assert StemWav(target, j)[|target|][0] == StemKeys[j][0];
    assert StemCompressed(target, j)[|target|][0] == StemKeys[j][0];
    assert MixOutput(target)[|target|][0] == 'm';
    assert StemWav(target, k)[|target|][|StemKeys[k]|] == '.';
    assert StemCompressed(target, k)[|target|][|StemKeys[k]|] == '_';
  }

  /** The later stems are outside the area of the earlier ones. */
  lemma {:induction false} OutsideCompressArea(target: Path, k: nat, n: nat)
    requires n <= k < 4
    ensures StemWav(target, k) !in CompressArea(target, n) && StemCompressed(target, k) !in CompressArea(target, n)
  {
    if n > 0 {
      OutsideCompressArea(target, k, n - 1);
      StemPathsDiffer(target, k, n - 1);
    }
  }

  /** The mix lies outside the stems and their compressed copies. */
  lemma {:induction false} MixOutsideCompressArea(target: Path, n: nat)
    requires n <= 4
    ensures MixOutput(target) !in CompressArea(target, n)
  {
    if n > 0 {
      MixOutsideCompressArea(target, n - 1);
      StemPathsDiffer(target, n - 1, n - 1);
    }
  }

  /** The area of the first `i` stems lies within the area of the first `n`. */
  lemma {:induction false} CompressAreaGrows(target: Path, i: nat, n: nat)
    requires i <= n <= 4
    ensures CompressArea(target, i) <= CompressArea(target, n)
    decreases n
  {
    if i < n {
      CompressAreaGrows(target, i, n - 1);
    }
  }

  /**
   * Stem `k` after the loop, compared with the file system demucs left: a stem that was
   * there has been compressed in place, and a stem that was not there still is not.
   */
  predicate StemCompressedInPlace(sep: Fs, fs: Fs, target: Path, ffmpeg: Cmd -> FfmpegRun, k: nat)
    requires k < 4
  {
    && (Exists(sep, StemWav(target, k)) ==>
          CompressOk(sep, StemWav(target, k), ffmpeg)
          && StemWav(target, k) in fs.files
          && fs.files[StemWav(target, k)] == CompressedContent(sep, StemWav(target, k), ffmpeg))
    && (!Exists(sep, StemWav(target, k)) ==> !Exists(fs, StemWav(target, k)))
  }

  /** Every stem that exists can be compressed. */
  predicate AllCompress(sep: Fs, target: Path, ffmpeg: Cmd -> FfmpegRun)
  {
    forall k :: 0 <= k < 4 && Exists(sep, StemWav(target, k)) ==> CompressOk(sep, StemWav(target, k), ffmpeg)
  }

  /** What the compression loop has established once it has seen the first `i` stems. */
  predicate CompressState(sep: Fs, cur: Fs, ran: seq<Cmd>, target: Path, ffmpeg: Cmd -> FfmpegRun, i: nat)
    requires i <= 4
  {
    && SameExcept(sep, cur, CompressArea(target, i))
    && ran == CompressRuns(sep, target, i)
    && (forall k :: 0 <= k < i ==> StemCompressedInPlace(sep, cur, target, ffmpeg, k))
  }

  /**
   * One pass of the loop body, `if stem_path.exists(): compress_audio(stem_path)`.
   */
  method CompressStem(cur: Fs, target: Path, ffmpeg: Cmd -> FfmpegRun, i: nat)
    returns (cur': Fs, r: Outcome<()>, cmds: seq<Cmd>)
    requires i < 4
    ensures SameExcept(cur, cur', {StemWav(target, i), StemCompressed(target, i)})
    ensures cmds == if Exists(cur, StemWav(target, i)) then [CompressCommand(StemWav(target, i))] else []
    ensures !Exists(cur, StemWav(target, i)) ==> cur' == cur && r.Return?
    ensures Exists(cur, StemWav(target, i)) ==> (r.Return? <==> CompressOk(cur, StemWav(target, i), ffmpeg))
    ensures Exists(cur, StemWav(target, i)) && r.Return? ==>
      StemWav(target, i) in cur'.files
      && cur'.files[StemWav(target, i)] == CompressedContent(cur, StemWav(target, i), ffmpeg)
  {
    var wav := StemWav(target, i);
    StemCompresses(target, i);
    if !Exists(cur, wav) {
      return cur, Return(()), [];
    }
    cur', r, cmds := CompressAudio(cur, wav, ffmpeg);
  }

  /** A compressed stem stays so through changes elsewhere. */
  lemma InPlaceSurvives(sep: Fs, cur: Fs, fs': Fs, target: Path, ffmpeg: Cmd -> FfmpegRun, t: set<Path>, k: nat)
    requires k < 4 && StemWav(target, k) !in t
    requires SameExcept(cur, fs', t) && StemCompressedInPlace(sep, cur, target, ffmpeg, k)
    ensures StemCompressedInPlace(sep, fs', target, ffmpeg, k)
  {
    SameOutside(cur, fs', t, StemWav(target, k));
  }

  /** Until the loop reaches stem `i`, that stem and its compressed copy are as demucs left them. */
  lemma StemUntouched(sep: Fs, cur: Fs, target: Path, ffmpeg: Cmd -> FfmpegRun, i: nat)
    requires i < 4 && SameExcept(sep, cur, CompressArea(target, i))
    ensures Exists(cur, StemWav(target, i)) <==> Exists(sep, StemWav(target, i))
    ensures CompressOk(cur, StemWav(target, i), ffmpeg) <==> CompressOk(sep, StemWav(target, i), ffmpeg)
    ensures CompressOk(sep, StemWav(target, i), ffmpeg) ==>
      CompressedContent(cur, StemWav(target, i), ffmpeg) == CompressedContent(sep, StemWav(target, i), ffmpeg)
  {
    var wav := StemWav(target, i);
    OutsideCompressArea(target, i, i);
    StemCompresses(target, i);
    SameOutside(sep, cur, CompressArea(target, i), wav);
    SameOutside(sep, cur, CompressArea(target, i), StemCompressed(target, i));
    CompressOkLocal(sep, cur, wav, ffmpeg);
  }

  /** The facts that carry the loop from stem `i` to stem `i + 1`. */
  lemma CompressStep(sep: Fs, cur: Fs, cur': Fs, ran: seq<Cmd>, cmds: seq<Cmd>, target: Path,
                     ffmpeg: Cmd -> FfmpegRun, i: nat)
    requires i < 4 && CompressState(sep, cur, ran, target, ffmpeg, i)
    requires SameExcept(cur, cur', {StemWav(target, i), StemCompressed(target, i)})
    requires cmds == if Exists(cur, StemWav(target, i)) then [CompressCommand(StemWav(target, i))] else []
    requires !Exists(cur, StemWav(target, i)) ==> cur' == cur
    requires Exists(cur, StemWav(target, i)) ==>
      CompressOk(cur, StemWav(target, i), ffmpeg)
      && StemWav(target, i) in cur'.files
      && cur'.files[StemWav(target, i)] == CompressedContent(cur, StemWav(target, i), ffmpeg)
    ensures CompressState(sep, cur', ran + cmds, target, ffmpeg, i + 1)
  {
    var wav := StemWav(target, i);
    var t := {wav, StemCompressed(target, i)};
    StemUntouched(sep, cur, target, ffmpeg, i);
    assert StemCompressedInPlace(sep, cur', target, ffmpeg, i);
    SameExceptChain(sep, cur, cur', CompressArea(target, i), t);
    forall k | 0 <= k < i
      ensures StemCompressedInPlace(sep, cur', target, ffmpeg, k)
    {
      StemPathsDiffer(target, k, i);
      InPlaceSurvives(sep, cur, cur', target, ffmpeg, t, k);
    }
  }

  /** A stem that cannot be compressed stops the loop with an exception. */
  lemma CompressFails(sep: Fs, cur: Fs, ran: seq<Cmd>, target: Path, ffmpeg: Cmd -> FfmpegRun, i: nat)
    requires i < 4 && CompressState(sep, cur, ran, target, ffmpeg, i)
    requires Exists(cur, StemWav(target, i)) && !CompressOk(cur, StemWav(target, i), ffmpeg)
    ensures !AllCompress(sep, target, ffmpeg)
  {
    StemUntouched(sep, cur, target, ffmpeg, i);
  }

  /**
   * The loop of `process_demucs` over the four stems: every stem that exists is
   * compressed in place, and the loop gets to the end exactly when every existing stem
   * can be compressed. Only the stems and their compressed copies change.
   */
  method CompressStems(sep: Fs, target: Path, ffmpeg: Cmd -> FfmpegRun)
    returns (fs': Fs, r: Outcome<()>, ran: seq<Cmd>)
    ensures SameExcept(sep, fs', CompressArea(target, 4))
    ensures r.Return? <==> AllCompress(sep, target, ffmpeg)
    ensures r.Return? ==> ran == CompressRuns(sep, target, 4)
    ensures r.Return? ==> forall k :: 0 <= k < 4 ==> StemCompressedInPlace(sep, fs', target, ffmpeg, k)
  {
    fs' := sep;
    ran := [];
    for i := 0 to 4
      invariant CompressState(sep, fs', ran, target, ffmpeg, i)
    {
      var cur := fs';
      var done, cmds;
      fs', done, cmds := CompressStem(cur, target, ffmpeg, i);
      if done == Raised {
        CompressFails(sep, cur, ran, target, ffmpeg, i);
        OutsideCompressArea(target, i, i);
        SameExceptChain(sep, cur, fs', CompressArea(target, i), {StemWav(target, i), StemCompressed(target, i)});
        assert CompressArea(target, i) + {StemWav(target, i), StemCompressed(target, i)} == CompressArea(target, i + 1);
        CompressAreaGrows(target, i + 1, 4);
        return fs', Raised, ran + cmds;
      }
      CompressStep(sep, cur, fs', ran, cmds, target, ffmpeg, i);
      ran := ran + cmds;
    }
    forall k | 0 <= k < 4 && Exists(sep, StemWav(target, k))
      ensures CompressOk(sep, StemWav(target, k), ffmpeg)
    {
      assert StemCompressedInPlace(sep, fs', target, ffmpeg, k);
    }
    r := Return(());
  }

  /** Writing the mix and deleting the mp3 leave every other compressed stem as it was. */
  lemma MixKeepsStems(sep: Fs, cur: Fs, fs': Fs, target: Path, mp3: Path, ffmpeg: Cmd -> FfmpegRun)
    requires SameExcept(sep, cur, CompressArea(target, 4)) && SameExcept(cur, fs', {MixOutput(target), mp3})
    requires forall k :: 0 <= k < 4 ==> StemCompressedInPlace(sep, cur, target, ffmpeg, k)
    ensures SameExcept(sep, fs', CompressArea(target, 4) + {MixOutput(target), mp3})
    ensures forall k :: 0 <= k < 4 && StemWav(target, k) != mp3 ==> StemCompressedInPlace(sep, fs', target, ffmpeg, k)
  {
    SameExceptChain(sep, cur, fs', CompressArea(target, 4), {MixOutput(target), mp3});
    forall k | 0 <= k < 4 && StemWav(target, k) != mp3
      ensures StemCompressedInPlace(sep, fs', target, ffmpeg, k)
    {
      StemPathsDiffer(target, k, k);
      InPlaceSurvives(sep, cur, fs', target, ffmpeg, {MixOutput(target), mp3}, k);
    }
  }

  /** Drums and bass both came out of demucs. */
  predicate BothStems(sep: Fs, target: Path)
  {
    Exists(sep, StemWav(target, 1)) && Exists(sep, StemWav(target, 2))
  }

  /**
   * When `process_demucs` for `musicName` ends in an exception: demucs is missing, or
   * demucs succeeded, the song's folder is there, and either some stem cannot be compressed
   * or drums and bass are both there and ffmpeg is missing for the mix.
   */
  predicate ProcessRaises(fs: Fs, musicName: string, demucs: DemucsRun, ffmpeg: Cmd -> FfmpegRun)
  {
    var sep := AfterDemucs(fs, demucs);
    var target := Join(SeparatedDir, musicName);
    || demucs.exit.NotFound?
    || (&& demucs.exit == Exited(0)
        && Exists(sep, target)
        && (!AllCompress(sep, target, ffmpeg)
            || (BothStems(sep, target) && ffmpeg(MixWavCommand(target)).exit.NotFound?)))
  }

  /**
   * When `process_demucs` for `musicName` returns the mix: demucs succeeded, the song's
   * folder is there, every stem there compresses, drums and bass are both there and
   * ffmpeg is found for the mix.
   */
  predicate ProcessMixes(fs: Fs, musicName: string, demucs: DemucsRun, ffmpeg: Cmd -> FfmpegRun)
  {
    var sep := AfterDemucs(fs, demucs);
    var target := Join(SeparatedDir, musicName);
    && demucs.exit == Exited(0)
    && Exists(sep, target)
    && AllCompress(sep, target, ffmpeg)
    && BothStems(sep, target)
    && !ffmpeg(MixWavCommand(target)).exit.NotFound?
  }

  /**
   * The end of `process_demucs`, once the stems are compressed: without drums or bass it
   * gives up (`None`) and runs nothing; otherwise it mixes them into `mixed_audio.wav`,
   * whatever ffmpeg's exit status (only a missing binary raises), deletes the mp3 (a failure
   * there is only a warning) and returns the mix's path, which then holds what ffmpeg wrote,
   * or is as it was if ffmpeg wrote nothing. Only the mix and the mp3 change, so the
   * compressed stems stay as they were.
   */
  method MixDrumsAndBass(sep: Fs, cur: Fs, target: Path, mp3: Path, ffmpeg: Cmd -> FfmpegRun)
    returns (fs': Fs, r: Outcome<Option<Path>>, cmds: seq<Cmd>)
    requires SameExcept(sep, cur, CompressArea(target, 4))
    requires forall k :: 0 <= k < 4 ==> StemCompressedInPlace(sep, cur, target, ffmpeg, k)
    ensures cmds == (if BothStems(sep, target) then [MixWavCommand(target)] else [])
    ensures !BothStems(sep, target) ==> r == Return(None)
    ensures r == Raised <==> BothStems(sep, target) && ffmpeg(MixWavCommand(target)).exit.NotFound?
    ensures r.Return? && r.value.Some? <==> BothStems(sep, target) && !ffmpeg(MixWavCommand(target)).exit.NotFound?
    ensures !(r.Return? && r.value.Some?) ==> fs' == cur
    ensures r.Return? && r.value.Some? ==>
      && r.value.value == MixOutput(target)
      && mp3 !in fs'.files
      && SameExcept(sep, fs', CompressArea(target, 4) + {MixOutput(target), mp3})
      && (forall k :: 0 <= k < 4 && StemWav(target, k) != mp3 ==> StemCompressedInPlace(sep, fs', target, ffmpeg, k))
    ensures var run := ffmpeg(MixWavCommand(target));
      r.Return? && r.value.Some? && MixOutput(target) != mp3 ==>
        if run.exit.Exited? && run.output.Some? then
          MixOutput(target) in fs'.files && fs'.files[MixOutput(target)] == run.output.value
        else SameAt(cur, fs', MixOutput(target))
  {
    var drums, bass := StemWav(target, 1), StemWav(target, 2);
    assert StemCompressedInPlace(sep, cur, target, ffmpeg, 1) && StemCompressedInPlace(sep, cur, target, ffmpeg, 2);
    assert (Exists(cur, drums) && Exists(cur, bass)) == BothStems(sep, target);
    if !Exists(cur, drums) || !Exists(cur, bass) {
      return cur, Return(None), [];
    }
    var mix := MixWavCommand(target);
    var run := ffmpeg(mix);
    cmds := [mix];
    if run.exit.NotFound? {
      return cur, Raised, cmds;
    }
    // a failing unlink only shows a warning
    fs' := Unlink(AfterFfmpeg(cur, MixOutput(target), run), mp3);
    FfmpegThenUnlink(cur, MixOutput(target), run, mp3);
    MixKeepsStems(sep, cur, fs', target, mp3, ffmpeg);
    r := Return(Some(MixOutput(target)));
  }

  /**
   * `process_demucs`: the mix path comes back exactly as `ProcessMixes` says, an exception
   * exactly as `ProcessRaises` says, and `False` (here `None`) in every other case: demucs
   * fails, the directory is missing, or drums or bass are missing once the stems are
   * compressed. On success the stems are compressed in place, the mp3 is gone and the mix
   * holds what ffmpeg wrote (it is as demucs left it if ffmpeg wrote nothing). An
   * exception after demucs has run leaves everything but the stems and their compressed
   * copies alone.
   */
  method ProcessDemucs(fs: Fs, mp3: Path, musicName: string, demucs: DemucsRun, ffmpeg: Cmd -> FfmpegRun)
    returns (fs': Fs, r: Outcome<Option<Path>>, ran: seq<Cmd>)
    ensures ran != [] && ran[0] == ["demucs", Str(mp3)]
    ensures demucs.exit.NotFound? ==> r == Raised && fs' == fs
    ensures demucs.exit.Exited? && demucs.exit.code != 0 ==> r == Return(None) && fs' == AfterDemucs(fs, demucs)
    ensures var sep := AfterDemucs(fs, demucs); var target := Join(SeparatedDir, musicName);
      demucs.exit == Exited(0) && !Exists(sep, target) ==> r == Return(None) && fs' == sep
    ensures r == Raised <==> ProcessRaises(fs, musicName, demucs, ffmpeg)
    ensures r.Return? && r.value.Some? <==> ProcessMixes(fs, musicName, demucs, ffmpeg)
    ensures var sep := AfterDemucs(fs, demucs); var target := Join(SeparatedDir, musicName);
      demucs.exit == Exited(0) && Exists(sep, target) && AllCompress(sep, target, ffmpeg) && !BothStems(sep, target) ==>
        r == Return(None) && SameExcept(sep, fs', CompressArea(target, 4))
    ensures var sep := AfterDemucs(fs, demucs); var target := Join(SeparatedDir, musicName);
      r.Return? && r.value.Some? ==>
        && r.value.value == MixOutput(target)
        && ran == [["demucs", Str(mp3)]] + CompressRuns(sep, target, 4) + [MixWavCommand(target)]
        && mp3 !in fs'.files
        && SameExcept(sep, fs', CompressArea(target, 4) + {MixOutput(target), mp3})
        && (forall k :: 0 <= k < 4 && StemWav(target, k) != mp3 ==> StemCompressedInPlace(sep, fs', target, ffmpeg, k))
    ensures r == Raised && demucs.exit.Exited? ==>
      SameExcept(AfterDemucs(fs, demucs), fs', CompressArea(Join(SeparatedDir, musicName), 4))
    ensures var sep := AfterDemucs(fs, demucs); var target := Join(SeparatedDir, musicName);
      var run := ffmpeg(MixWavCommand(target));
      r.Return? && r.value.Some? && MixOutput(target) != mp3 ==>
        if run.exit.Exited? && run.output.Some? then
          MixOutput(target) in fs'.files && fs'.files[MixOutput(target)] == run.output.value
        else SameAt(sep, fs', MixOutput(target))
  {
    var cmd := ["demucs", Str(mp3)];
    ran := [cmd];
    if demucs.exit.NotFound? {
      return fs, Raised, ran;
    }
    var sep := AfterDemucs(fs, demucs);
    if demucs.exit.code != 0 {
      return sep, Return(None), ran;
    }
    var target := Join(SeparatedDir, musicName);
    if !Exists(sep, target) {
      return sep, Return(None), ran;
    }
    var compressed, cmds;
    fs', compressed, cmds := CompressStems(sep, target, ffmpeg);
    ran := ran + cmds;
    if compressed == Raised {
      return fs', Raised, ran;
    }
    MixOutsideCompressArea(target, 4);
    SameOutside(sep, fs', CompressArea(target, 4), MixOutput(target));
    fs', r, cmds := MixDrumsAndBass(sep, fs', target, mp3, ffmpeg);
    ran := ran + cmds;
  }

  // ---------------------------------------------------------------------------
  // The sidebar button and the gallery

  /** What the sidebar shows after the button. */
  datatype Notice = FieldsRequired | Stopped | Success(name: string)

  /**
   * The `Baixar e Separar` handler: both fields are required; the name is cleaned, the song
   * downloaded under it and separated. It raises exactly when a directory sits at the
   * destination or `process_demucs` raises on the completed download; success is reported,
   * with the cleaned name, exactly when the download completed and `process_demucs`
   * returned the mix; every other case ends without a message.
   *
   * What changes: without a completed download, only the destination; a directory there
   * raises and changes nothing. After a completed download, demucs writes its files; a
   * missing demucs raises with nothing else changed; otherwise only the stems and their
   * compressed copies change after demucs ran, and on success also the mix and the
   * downloaded mp3, with the stems compressed in place and the mix holding what ffmpeg
   * wrote, so that the song's folder shows in the gallery (`MixShown`).
   */
  method HandleSubmit(fs: Fs, isAlnum: char -> bool, url: string, inputName: string,
                      fetch: Fetch, demucs: DemucsRun, ffmpeg: Cmd -> FfmpegRun)
    returns (fs': Fs, r: Outcome<Notice>, ran: seq<Cmd>)
    ensures url == "" || inputName == "" ==> r == Return(FieldsRequired) && fs' == fs && ran == []
    ensures url != "" && inputName != "" && !Downloaded(fetch) ==> ran == [] && !(r.Return? && r.value.Success?)
    ensures var name := CleanName.Cleaned(isAlnum, inputName); var dest := SongPath(name);
      r == Raised <==>
        url != "" && inputName != ""
        && ((dest in fs.dirs && dest !in fs.files)
            || (Downloaded(fetch) && ProcessRaises(AfterDownload(fs, dest, fetch), name, demucs, ffmpeg)))
    ensures var name := CleanName.Cleaned(isAlnum, inputName); var dest := SongPath(name);
      r.Return? && r.value.Success? <==>
        && url != "" && inputName != "" && Downloaded(fetch)
        && !(dest in fs.dirs && dest !in fs.files)
        && ProcessMixes(AfterDownload(fs, dest, fetch), name, demucs, ffmpeg)
    ensures r.Return? && r.value.Success? ==>
      var name := CleanName.Cleaned(isAlnum, inputName);
      var target := Join(SeparatedDir, name);
      && r.value.name == name
      && Downloaded(fetch) && demucs.exit == Exited(0)
      && ran != [] && ran[0] == ["demucs", Str(SongPath(name))]
      && ran[|ran| - 1] == MixWavCommand(target)
      && SongPath(name) !in fs'.files
      && SameExcept(AfterDemucs(AfterDownload(fs, SongPath(name), fetch), demucs), fs',
                    CompressArea(target, 4) + {MixOutput(target), SongPath(name)})
      && (forall k :: 0 <= k < 4 && StemWav(target, k) != SongPath(name) ==>
            StemCompressedInPlace(AfterDemucs(AfterDownload(fs, SongPath(name), fetch), demucs), fs', target, ffmpeg, k))
      && (var run := ffmpeg(MixWavCommand(target));
          if run.exit.Exited? && run.output.Some? then
            MixOutput(target) in fs'.files && fs'.files[MixOutput(target)] == run.output.value
          else SameAt(AfterDemucs(AfterDownload(fs, SongPath(name), fetch), demucs), fs', MixOutput(target)))
    ensures var name := CleanName.Cleaned(isAlnum, inputName); var dest := SongPath(name);
      r == Raised ==>
        if dest in fs.dirs && dest !in fs.files then fs' == fs
        else
          && Downloaded(fetch)
          && (demucs.exit.NotFound? ==> fs' == AfterDownload(fs, dest, fetch))
          && (demucs.exit.Exited? ==>
                SameExcept(AfterDemucs(AfterDownload(fs, dest, fetch), demucs), fs', CompressArea(Join(SeparatedDir, name), 4)))
    ensures var name := CleanName.Cleaned(isAlnum, inputName); var dest := SongPath(name);
      r == Return(Stopped) ==>
        if Downloaded(fetch) then
          SameExcept(AfterDemucs(AfterDownload(fs, dest, fetch), demucs), fs', CompressArea(Join(SeparatedDir, name), 4))
        else SameExcept(fs, fs', {dest})
  {
    if url == "" || inputName == "" {
      return fs, Return(FieldsRequired), [];
    }
    var name := CleanName.Cleaned(isAlnum, inputName);
    var mp3;
    fs', mp3 := DownloadAudio(fs, name, fetch);
    ran := [];
    if mp3 == Raised {
      return fs', Raised, ran;
    }
    if mp3.value == None {
      return fs', Return(Stopped), ran;
    }
    assert fs' == AfterDownload(fs, SongPath(name), fetch);
    assert |MixOutput(Join(SeparatedDir, name))| >= 3 > |SongPath(name)|;
    var mix;
    fs', mix, ran := ProcessDemucs(fs', mp3.value.value, name, demucs, ffmpeg);
    if mix == Raised {
      return fs', Raised, ran;
    }
    r := if mix.value.Some? then Return(Success(name)) else Return(Stopped);
  }

  /** The session folder holds `mixed_audio.wav`. */
  predicate HasMix(fs: Fs, s: Catalog.Session)
  {
    Exists(fs, SeparatedDir + [s.name, "mixed_audio.wav"])
  }

  /**
   * The folder a submit mixed into is the gallery's session of that name exactly when the
   * name is not empty: an empty name puts the mix directly under `separated/htdemucs`, and
   * the gallery never looks there.
   */
  lemma MixShown(fs: Fs, name: string, t: int)
    ensures name != "" ==> (HasMix(fs, Catalog.Session(name, t)) <==> Exists(fs, MixOutput(Join(SeparatedDir, name))))
    ensures name == "" ==> MixOutput(Join(SeparatedDir, name)) != SeparatedDir + [name, "mixed_audio.wav"]
  {
    if name == "" {
      assert |MixOutput(Join(SeparatedDir, name))| == 3;
    } else {
      assert MixOutput(Join(SeparatedDir, name)) == SeparatedDir + [name, "mixed_audio.wav"];
    }
  }

  /** The sessions with a mix, in their order. */
  function WithMix(fs: Fs, s: seq<Catalog.Session>): (r: seq<Catalog.Session>)
  {
    if s == [] then []
    else WithMix(fs, s[..|s| - 1]) + (if HasMix(fs, s[|s| - 1]) then [s[|s| - 1]] else [])
  }

  /** The gallery lists exactly the sessions with a mix, each as often as in the list it filters. */
  lemma {:induction false} WithMixMembers(fs: Fs, s: seq<Catalog.Session>)
    ensures forall x :: x in WithMix(fs, s) <==> x in s && HasMix(fs, x)
    ensures multiset(WithMix(fs, s)) <= multiset(s)
  {
    if s != [] {
      WithMixMembers(fs, s[..|s| - 1]);
      assert s == s[..|s| - 1] + [s[|s| - 1]];
    }
  }

  /** The gallery keeps the newest-first order of the list it filters. */
  lemma {:induction false} WithMixOrdered(fs: Fs, s: seq<Catalog.Session>)
    requires Catalog.NewestFirst(s)
    ensures Catalog.NewestFirst(WithMix(fs, s))
  {
    if s != [] {
      var init := s[..|s| - 1];
      WithMixOrdered(fs, init);
      WithMixMembers(fs, init);
      var w := WithMix(fs, init);
      forall i | 0 <= i < |w|
        ensures w[i].mtime >= s[|s| - 1].mtime
      {
        assert w[i] in init;
      }
    }
  }

  /**
   * The main area: the session folders are sorted in place, newest first, and those that
   * hold `mixed_audio.wav` are shown in that order.
   */
  method Gallery(fs: Fs, folders: array<Catalog.Session>) returns (shown: seq<Catalog.Session>)
    modifies folders
    ensures multiset(folders[..]) == old(multiset(folders[..]))
    ensures Catalog.NewestFirst(folders[..])
    ensures shown == WithMix(fs, folders[..])
    ensures Catalog.NewestFirst(shown)
    ensures forall x :: x in shown <==> x in old(folders[..]) && HasMix(fs, x)
  {
    Catalog.SortByRecency(folders);
    shown := [];
    for i := 0 to folders.Length
      invariant shown == WithMix(fs, folders[..i])
    {
      assert folders[..i + 1][..i] == folders[..i];
      if HasMix(fs, folders[i]) {
        shown := shown + [folders[i]];
      }
    }
    assert folders[..folders.Length] == folders[..];
    WithMixMembers(fs, folders[..]);
    WithMixOrdered(fs, folders[..]);
    forall x
      ensures x in old(folders[..]) <==> x in folders[..]
    {
      assert x in old(folders[..]) <==> x in old(multiset(folders[..]));
    }
  }
}
