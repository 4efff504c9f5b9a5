/**
 * src/scripts/app.py, the "Drum & Bass Extractor": one button downloads the song to
 * `src/temp_audio.mp3` while reporting progress, clears the song's old demucs folder,
 * runs demucs and mixes drums and bass into `drums_and_bass_mix.wav`; each stage runs
 * only when the one before it succeeded, and the status names the first that failed.
 */
module ExtractorApp {
  import opened Base
  import opened FileSystem
  import opened Fetching

  /** The fixed name every download gets. */
  const Song: string := "temp_audio"

  /** `SRC_DIR / f"{filename}.mp3"`. */
  const DownloadFile: Path := SrcDir + [Song + ".mp3"]

  /** `DEMUCS_OUTPUT_DIR / song_name` for the downloaded song. */
  const SongDir: Path := SeparatedDir + [Song]

  /** `int(r.headers.get("content-length", 0))`: an absent header counts as 0, and text `int` refuses raises. */
  function TotalSize(h: Header): Option<int>
  {
    match h
    case NoLength => Some(0)
    case Length(n) => Some(n)
    case Malformed => None
  }

  /** The payload-size guard: a positive length under 10000 bytes means the service sent an error page. */
  predicate TooSmall(total: int)
  {
    0 < total < 10000
  }

  /**
   * The download gets as far as opening `temp_audio.mp3`: the service answered (its status
   * is not checked), the length header parses and passes the guard, and the destination
   * is not a directory.
   */
  predicate Opens(fs: Fs, fetch: Fetch)
  {
    && fetch.Response?
    && TotalSize(fetch.length).Some?
    && !TooSmall(TotalSize(fetch.length).value)
    && !(DownloadFile in fs.dirs && DownloadFile !in fs.files)
  }

  /** `min(downloaded / total_size, 1.0)`. */
  function Progress(downloaded: int, total: int): (p: real)
    requires total > 0
    ensures p <= 1.0
    ensures p == 1.0 <==> downloaded >= total
    ensures downloaded >= 0 ==> p >= 0.0
  {
    var ratio := downloaded as real / total as real;
    if ratio >= 1.0 then 1.0 else ratio
  }

  /** The progress shown after each chunk: the bytes received so far over the announced total. */
  function Reports(chunks: seq<Bytes>, total: int): (r: seq<real>)
    requires total > 0
    ensures |r| == |chunks|
  {
    if chunks == [] then []
    else Reports(chunks[..|chunks| - 1], total) + [Progress(TotalLength(chunks), total)]
  }

  /** The bytes received never decrease from one chunk to the next. */
  lemma {:induction false} TotalLengthGrows(chunks: seq<Bytes>, i: nat, j: nat)
    requires i <= j <= |chunks|
    ensures TotalLength(chunks[..i]) <= TotalLength(chunks[..j])
    decreases j
  {
    if i < j {
      TotalLengthGrows(chunks, i, j - 1);
      assert chunks[..j][..j - 1] == chunks[..j - 1];
    }
  }

  /** The report after chunk `i` is the share of the total received up to and including it. */
  lemma {:induction false} ReportAt(chunks: seq<Bytes>, total: int, i: nat)
    requires total > 0 && i < |chunks|
    ensures Reports(chunks, total)[i] == Progress(TotalLength(chunks[..i + 1]), total)
    decreases |chunks|
  {
    var init := chunks[..|chunks| - 1];
    if i < |chunks| - 1 {
      ReportAt(init, total, i);
      assert init[..i + 1] == chunks[..i + 1];
    } else {
      assert chunks[..i + 1] == chunks;
      if init != [] {
        ReportAt(init, total, 0);
      }
    }
  }

  /** More bytes received never shows less progress. */
  lemma ProgressGrows(a: int, b: int, total: int)
    requires total > 0 && a <= b
    ensures Progress(a, total) <= Progress(b, total)
  {
    var t := total as real;
    assert b as real / t - a as real / t == (b - a) as real / t;
  }

  /**
   * The progress bar stays between 0 and 1 and is full after a chunk exactly when the
   * bytes received so far reach the announced total.
   */
  lemma ReportsBounded(chunks: seq<Bytes>, total: int)
    requires total > 0
    ensures forall i :: 0 <= i < |chunks| ==> 0.0 <= Reports(chunks, total)[i] <= 1.0
    ensures forall i :: 0 <= i < |chunks| ==>
      (Reports(chunks, total)[i] == 1.0 <==> TotalLength(chunks[..i + 1]) >= total)
  {
    if chunks != [] {
      ReportAt(chunks, total, 0);
    }
    forall i | 0 <= i < |chunks|
      ensures 0.0 <= Reports(chunks, total)[i] <= 1.0
      ensures Reports(chunks, total)[i] == 1.0 <==> TotalLength(chunks[..i + 1]) >= total
    {
      ReportAt(chunks, total, i);
    }
  }

  /** The progress bar only moves forward. */
  lemma ReportsMonotone(chunks: seq<Bytes>, total: int)
    requires total > 0
    ensures forall i, j :: 0 <= i <= j < |chunks| ==> Reports(chunks, total)[i] <= Reports(chunks, total)[j]
  {
    if chunks != [] {
      ReportAt(chunks, total, 0);
    }
    forall i, j | 0 <= i <= j < |chunks|
      ensures Reports(chunks, total)[i] <= Reports(chunks, total)[j]
    {
      ReportAt(chunks, total, i);
      ReportAt(chunks, total, j);
      TotalLengthGrows(chunks, i + 1, j + 1);
      ProgressGrows(TotalLength(chunks[..i + 1]), TotalLength(chunks[..j + 1]), total);
    }
  }

  /**
   * `download_audio`: nothing is written when the service is unreachable, the length header
   * does not parse, the payload-size guard rejects it or the destination is a directory;
   * otherwise every chunk goes to `src/temp_audio.mp3` and progress is reported after each
   * chunk when the total is known. The path comes back when the stream ends normally; an
   * error is caught and shown, so nothing escapes.
   */
  method DownloadAudio(fs: Fs, fetch: Fetch) returns (fs': Fs, r: Option<Path>, reports: seq<real>)
    ensures Opens(fs, fetch) ==> fs' == Fetched(fs, fetch)
    ensures !Opens(fs, fetch) ==> fs' == fs && reports == []
    ensures r.Some? <==> Opens(fs, fetch) && fetch.complete
    ensures r.Some? ==> r.value == DownloadFile
    ensures Rooted(fs) && SrcDir in fs.dirs ==> Rooted(fs')
    ensures fetch.Response? && TotalSize(fetch.length).Some? && TooSmall(TotalSize(fetch.length).value) ==>
      r == None && fs' == fs
    ensures Opens(fs, fetch) ==>
      var total := TotalSize(fetch.length).value;
      reports == if total > 0 then Reports(fetch.chunks, total) else []
  {
    if fetch.Unreachable? {
      return fs, None, [];
    }
    var size := TotalSize(fetch.length);
    if size.None? {
      // `int` refuses the header
      return fs, None, [];
    }
    var total := size.value;
    if TooSmall(total) {
      return fs, None, [];
    }
    if DownloadFile in fs.dirs && DownloadFile !in fs.files {
      // `open(..., "wb")` on a directory fails
      return fs, None, [];
    }
    var chunks := fetch.chunks;
    var downloaded := 0;
    var content: Bytes := [];
    reports := [];
    for i := 0 to |chunks|
      invariant downloaded == TotalLength(chunks[..i])
      invariant content == Concat(chunks[..i])
      invariant reports == if total > 0 then Reports(chunks[..i], total) else []
    {
      assert chunks[..i + 1][..i] == chunks[..i];
      content := content + chunks[i];
      downloaded := downloaded + |chunks[i]|;
      if total > 0 {
        reports := reports + [Progress(downloaded, total)];
      }
    }
    assert chunks[..|chunks|] == chunks;
    if Rooted(fs) && SrcDir in fs.dirs {
      WriteRooted(fs, DownloadFile, content);
    }
    fs' := Write(fs, DownloadFile, content);
    r := if fetch.complete then Some(DownloadFile) else None;
  }

  /** The downloaded file's stem is the song name, so demucs files it under `temp_audio`. */
  lemma SongOfDownload()
    ensures StemOf(Name(DownloadFile)) == Song
    ensures Join(SeparatedDir, StemOf(Name(DownloadFile))) == SongDir
  {
    assert Song + ".mp3" == Song + "." + "mp3";
    SuffixOfDotted(Song, "mp3");
  }

  /** The separation command. */
  function DemucsCommand(input: Path): Cmd
  {
    ["demucs", Str(input)]
  }

  /**
   * `run_demucs`: success is exactly a demucs exit status of 0; a failing run and a missing
   * binary are caught and reported as failure.
   */
  method RunDemucs(fs: Fs, input: Path, demucs: DemucsRun) returns (fs': Fs, ok: bool, cmd: Cmd)
    ensures cmd == DemucsCommand(input)
    ensures ok <==> demucs.exit == Exited(0)
    ensures fs' == AfterDemucs(fs, demucs)
  {
    cmd := DemucsCommand(input);
    fs' := AfterDemucs(fs, demucs);
    ok := demucs.exit.Exited? && demucs.exit.code == 0;
  }

  /** `track_dir / "drums_and_bass_mix.wav"`. */
  function MixFile(trackDir: Path): Path
  {
    trackDir + ["drums_and_bass_mix.wav"]
  }

  /** The ffmpeg command that mixes the drums and bass of `trackDir`. */
  function MixCommand(trackDir: Path): Cmd
  {
    ["ffmpeg", "-y", "-i", Str(StemWav(trackDir, 1)), "-i", Str(StemWav(trackDir, 2)),
     "-filter_complex", "amix=inputs=2:duration=longest", Str(MixFile(trackDir))]
  }

  /** The mix is a file of its own, not one of the stems it reads. */
  lemma MixApart(trackDir: Path)
    ensures MixFile(trackDir) != StemWav(trackDir, 1) && MixFile(trackDir) != StemWav(trackDir, 2)
  {
    assert MixFile(trackDir)[|trackDir|][5] == '_';
    assert StemWav(trackDir, 1)[|trackDir|][5] == '.';
    assert MixFile(trackDir)[|trackDir|][0] != StemWav(trackDir, 2)[|trackDir|][0];
  }

  /**
   * `mix_tracks`: with drums or bass missing nothing runs and the result is `None`; otherwise
   * ffmpeg runs with `check=True`, so the mix's path comes back exactly when it exits with 0,
   * a non-zero exit gives `None`, and a missing binary raises (only the failed-process error
   * is caught).
   */
  method MixTracks(fs: Fs, songFolder: string, ffmpeg: Cmd -> FfmpegRun)
    returns (fs': Fs, r: Outcome<Option<Path>>, ran: seq<Cmd>)
    ensures var dir := Join(SeparatedDir, songFolder);
      !(Exists(fs, StemWav(dir, 1)) && Exists(fs, StemWav(dir, 2))) ==> r == Return(None) && fs' == fs && ran == []
    ensures var dir := Join(SeparatedDir, songFolder);
      Exists(fs, StemWav(dir, 1)) && Exists(fs, StemWav(dir, 2)) ==>
        ran == [MixCommand(dir)] && fs' == AfterFfmpeg(fs, MixFile(dir), ffmpeg(MixCommand(dir)))
    ensures var dir := Join(SeparatedDir, songFolder);
      r == Raised <==> Exists(fs, StemWav(dir, 1)) && Exists(fs, StemWav(dir, 2)) && ffmpeg(MixCommand(dir)).exit.NotFound?
    ensures var dir := Join(SeparatedDir, songFolder);
      r.Return? && r.value.Some? <==>
        Exists(fs, StemWav(dir, 1)) && Exists(fs, StemWav(dir, 2)) && ffmpeg(MixCommand(dir)).exit == Exited(0)
    ensures r.Return? && r.value.Some? ==> r.value.value == MixFile(Join(SeparatedDir, songFolder))
  {
    var dir := Join(SeparatedDir, songFolder);
    if !Exists(fs, StemWav(dir, 1)) || !Exists(fs, StemWav(dir, 2)) {
      return fs, Return(None), [];
    }
    var cmd := MixCommand(dir);
    var run := ffmpeg(cmd);
    ran := [cmd];
    if run.exit.NotFound? {
      return fs, Raised, ran;
    }
    fs' := AfterFfmpeg(fs, MixFile(dir), run);
    r := if run.exit.code == 0 then Return(Some(MixFile(dir))) else Return(None);
  }

  /** The status the page ends with: a warning, the first stage that failed, or the finished mix. */
  datatype Status = UrlMissing | DownloadFailed | SeparationFailed | MixFailed | Complete(mix: Path)

  /**
   * `if potential_old_folder.exists(): shutil.rmtree(potential_old_folder)`: a folder goes
   * with everything below it, a file there makes `rmtree` raise, and nothing there is
   * left alone.
   */
  method ClearPrevious(fs: Fs, folder: Path) returns (fs': Fs, r: Outcome<()>)
    ensures r == Raised <==> folder in fs.files
    ensures r == Raised ==> fs' == fs
    ensures r.Return? ==> fs' == if Exists(fs, folder) then RemoveTree(fs, folder) else fs
  {
    fs' := fs;
    r := Return(());
    if Exists(fs, folder) {
      if folder in fs.files {
        return fs, Raised;
      }
      fs' := RemoveTree(fs, folder);
    }
  }

  /** Drums and bass are both where `mix_tracks` looks for them. */
  predicate StemsThere(sep: Fs)
  {
    Exists(sep, StemWav(SongDir, 1)) && Exists(sep, StemWav(SongDir, 2))
  }

  /**
   * How `run_demucs` and then `mix_tracks` end, starting from `cleared`: the commands run,
   * the file system left, and a status naming the first stage that failed. demucs failing
   * gives `SeparationFailed`; missing drums or bass, or ffmpeg exiting with a failure, give
   * `MixFailed`; a missing ffmpeg, or a mix ffmpeg reports done but did not write, raise
   * (the second when the download button opens it); otherwise the mix is complete.
   */
  predicate StagesEnd(cleared: Fs, demucs: DemucsRun, ffmpeg: Cmd -> FfmpegRun,
                      fs': Fs, r: Outcome<Status>, ran: seq<Cmd>)
  {
    var sep := AfterDemucs(cleared, demucs);
    var mixes := demucs.exit == Exited(0) && StemsThere(sep);
    var run := ffmpeg(MixCommand(SongDir));
    && ran == [DemucsCommand(DownloadFile)] + (if mixes then [MixCommand(SongDir)] else [])
    && fs' == (if mixes then AfterFfmpeg(sep, MixFile(SongDir), run) else sep)
    && (r == Return(SeparationFailed) <==> demucs.exit != Exited(0))
    && (r == Return(MixFailed) <==>
          demucs.exit == Exited(0) && (!StemsThere(sep) || (run.exit.Exited? && run.exit.code != 0)))
    && (r == Raised <==>
          mixes && (run.exit.NotFound? || (run.exit == Exited(0) && MixFile(SongDir) !in fs'.files)))
    && (r == Return(Complete(MixFile(SongDir))) <==>
          mixes && run.exit == Exited(0) && MixFile(SongDir) in fs'.files)
    && (r.Return? ==> r.value == SeparationFailed || r.value == MixFailed || r.value == Complete(MixFile(SongDir)))
  }

  /**
   * `run_demucs` and, when it succeeds, `mix_tracks` on the song's folder, ending as
   * `StagesEnd` says. When it completes, the drums and bass it mixed were there after
   * demucs ran.
   */
  method SeparateThenMix(cleared: Fs, demucs: DemucsRun, ffmpeg: Cmd -> FfmpegRun)
    returns (fs': Fs, r: Outcome<Status>, ran: seq<Cmd>)
    ensures StagesEnd(cleared, demucs, ffmpeg, fs', r, ran)
    ensures |ran| > 1 ==> demucs.exit == Exited(0)
    ensures r.Return? && r.value.Complete? ==>
      && r.value.mix in fs'.files
      && demucs.exit == Exited(0) && ffmpeg(MixCommand(SongDir)).exit == Exited(0)
      && StemsThere(AfterDemucs(cleared, demucs))
  {
    var ok, cmd;
    fs', ok, cmd := RunDemucs(cleared, DownloadFile, demucs);
    ran := [cmd];
    if !ok {
      return fs', Return(SeparationFailed), ran;
    }
    var mixed, cmds;
    fs', mixed, cmds := MixTracks(fs', Song, ffmpeg);
    ran := ran + cmds;
    if mixed == Raised {
      return fs', Raised, ran;
    }
    if mixed.value == None {
      return fs', Return(MixFailed), ran;
    }
    if mixed.value.value !in fs'.files {
      // `open(final_file, "rb")` for the download button fails
      return fs', Raised, ran;
    }
    r := Return(Complete(mixed.value.value));
  }

  /** What `if potential_old_folder.exists(): shutil.rmtree(...)` leaves when it does not raise. */
  function Cleared(fs: Fs): Fs
  {
    if Exists(fs, SongDir) then RemoveTree(fs, SongDir) else fs
  }

  /**
   * The stages after a completed download, from the state it left: a file where the song's
   * old folder would be makes `shutil.rmtree` raise before anything runs; otherwise the
   * old folder is removed and demucs and the mix run, ending as `StagesEnd` says. When it
   * completes in a rooted tree, the drums and bass it mixed are the ones this demucs run
   * produced.
   */
  method SeparateAndMix(downloaded: Fs, demucs: DemucsRun, ffmpeg: Cmd -> FfmpegRun)
    returns (fs': Fs, r: Outcome<Status>, ran: seq<Cmd>)
    ensures SongDir in downloaded.files ==> r == Raised && ran == [] && fs' == downloaded
    ensures SongDir !in downloaded.files ==> StagesEnd(Cleared(downloaded), demucs, ffmpeg, fs', r, ran)
    ensures |ran| > 1 ==> demucs.exit == Exited(0)
    ensures r.Return? && r.value.Complete? && Rooted(downloaded) ==>
      forall k :: 1 <= k <= 2 ==> StemWav(SongDir, k) in demucs.files || StemWav(SongDir, k) in demucs.dirs
  {
    // `song_name = mp3_path.stem` names the folder
    SongOfDownload();
    var cleared, done;
    cleared, done := ClearPrevious(downloaded, SongDir);
    if done == Raised {
      return cleared, Raised, [];
    }
    fs', r, ran := SeparateThenMix(cleared, demucs, ffmpeg);
    if r.Return? && r.value.Complete? && Rooted(downloaded) {
      FreshStems(downloaded, cleared, AfterDemucs(cleared, demucs), demucs);
    }
  }

  /**
   * Drums and bass found after the clear-and-separate steps were produced by demucs: either
   * the old folder was removed with everything below it, or it did not exist and, the tree
   * being rooted, nothing below it did either.
   */
  lemma FreshStems(downloaded: Fs, cleared: Fs, separated: Fs, demucs: DemucsRun)
    requires Rooted(downloaded)
    requires cleared == if Exists(downloaded, SongDir) then RemoveTree(downloaded, SongDir) else downloaded
    requires demucs.exit.Exited? && separated == AfterDemucs(cleared, demucs)
    ensures forall k :: 1 <= k <= 2 && Exists(separated, StemWav(SongDir, k)) ==>
      StemWav(SongDir, k) in demucs.files || StemWav(SongDir, k) in demucs.dirs
  {
    forall k | 1 <= k <= 2 && Exists(separated, StemWav(SongDir, k))
      ensures StemWav(SongDir, k) in demucs.files || StemWav(SongDir, k) in demucs.dirs
    {
      var stem := StemWav(SongDir, k);
      assert Parent(stem) == SongDir;
      assert SongDir <= stem;
      assert !Exists(cleared, stem);
    }
  }

  /**
   * The `Processar Áudio` handler: without a URL only a warning; otherwise download, then
   * clear, separate and mix, each stage only after the previous one succeeded, so the
   * status names the first stage that failed (`StagesEnd`). When it completes on a rooted
   * tree whose `src` folder exists, the drums and bass it mixed are the ones this demucs
   * run produced.
   */
  method HandleButton(fs: Fs, url: string, fetch: Fetch, demucs: DemucsRun, ffmpeg: Cmd -> FfmpegRun)
    returns (fs': Fs, r: Outcome<Status>, ran: seq<Cmd>, reports: seq<real>)
    ensures url == "" ==> r == Return(UrlMissing) && fs' == fs && ran == [] && reports == []
    ensures url != "" ==> (r == Return(DownloadFailed) <==> !(Opens(fs, fetch) && fetch.complete))
    ensures r == Return(DownloadFailed) ==> ran == [] && fs' == (if Opens(fs, fetch) then Fetched(fs, fetch) else fs)
    ensures url != "" && Opens(fs, fetch) && fetch.complete && SongDir in fs.files ==>
      r == Raised && ran == [] && fs' == Fetched(fs, fetch)
    ensures url != "" && Opens(fs, fetch) && fetch.complete && SongDir !in fs.files ==>
      StagesEnd(Cleared(Fetched(fs, fetch)), demucs, ffmpeg, fs', r, ran)
    ensures ran != [] ==> url != "" && Opens(fs, fetch) && fetch.complete && ran[0] == DemucsCommand(DownloadFile)
    ensures |ran| > 1 ==> demucs.exit == Exited(0)
    ensures r.Return? && r.value.Complete? ==>
      && r.value.mix == MixFile(SongDir)
      && r.value.mix in fs'.files
      && ffmpeg(MixCommand(SongDir)).exit == Exited(0)
      && ran == [DemucsCommand(DownloadFile), MixCommand(SongDir)]
    ensures r.Return? && r.value.Complete? && Rooted(fs) && SrcDir in fs.dirs ==>
      forall k :: 1 <= k <= 2 ==> StemWav(SongDir, k) in demucs.files || StemWav(SongDir, k) in demucs.dirs
  {
    if url == "" {
      return fs, Return(UrlMissing), [], [];
    }
    var mp3;
    fs', mp3, reports := DownloadAudio(fs, fetch);
    if mp3 == None {
      return fs', Return(DownloadFailed), [], reports;
    }
    assert DownloadFile != SongDir;
    fs', r, ran := SeparateAndMix(fs', demucs, ffmpeg);
  }

  /** The file system after the download opened the file: the chunks written to `temp_audio.mp3`. */
  function Fetched(fs: Fs, fetch: Fetch): Fs
    requires fetch.Response?
  {
    Write(fs, DownloadFile, Concat(fetch.chunks))
  }
}
