/**
 * src/main.py, the "Mateus Sono" dashboard: it downloads a song as mp3 into `src/`,
 * separates it into four stems with demucs (`separated/htdemucs/<stem of the mp3>/`),
 * converts each stem from wav to mp3, mixes drums and bass into `mixed_audio.mp3`,
 * and deletes the downloaded mp3.
 *
 * Every step passes the file system along as a value; demucs, ffmpeg and the download
 * service are oracles (see FileSystem and Fetching). A `FileNotFoundError` from
 * `subprocess.run` when a binary is missing is not caught by the script, so it ends the
 * run as `Raised`.
 */
module MainApp {
  import opened Base
  import opened FileSystem
  import opened Fetching
  import Sanitize

  /** `path.exists() and path.stat().st_size > 0`; a directory has a positive size. */
  predicate HasContent(fs: Fs, p: Path)
  {
    p in fs.dirs || (p in fs.files && |fs.files[p]| > 0)
  }

  // ---------------------------------------------------------------------------
  // convert_to_mp3

  /** The ffmpeg command that re-encodes `src` as an mp3 at `dst`. */
  function Mp3Command(src: Path, dst: Path): Cmd
  {
    ["ffmpeg", "-y", "-i", Str(src), "-codec:a", "libmp3lame", "-qscale:a", "2", Str(dst)]
  }

  /**
   * `convert_to_mp3`: an mp3 is returned as it is. Anything else is re-encoded next to
   * itself; the mp3 is returned, and the original deleted, exactly when ffmpeg left
   * something non-empty there; otherwise the original is returned and kept. Either way the
   * mp3 path holds what ffmpeg wrote, if it wrote anything. The exit status of ffmpeg is
   * ignored, only a missing binary raises, and then nothing has changed.
   */
  method ConvertToMp3(fs: Fs, file: Path, ffmpeg: Cmd -> FfmpegRun)
    returns (fs': Fs, r: Outcome<Path>, ran: seq<Cmd>)
    requires file != []
    ensures var mp3 := WithSuffix(file, ".mp3");
      && (Suffix(Name(file)) == ".mp3" ==> fs' == fs && r == Return(file) && ran == [])
      && (Suffix(Name(file)) != ".mp3" ==> mp3 != file && ran == [Mp3Command(file, mp3)])
      && (r == Raised <==> Suffix(Name(file)) != ".mp3" && ffmpeg(Mp3Command(file, mp3)).exit.NotFound?)
      && (r.Return? ==> r.value == file || r.value == mp3)
      && (r.Return? && r.value != file <==>
            Suffix(Name(file)) != ".mp3"
            && ffmpeg(Mp3Command(file, mp3)).exit.Exited?
            && HasContent(AfterFfmpeg(fs, mp3, ffmpeg(Mp3Command(file, mp3))), mp3))
      && (r.Return? && r.value != file ==> Exists(fs', r.value) && file !in fs'.files)
      && (r.Return? && r.value == file ==> SameAt(fs, fs', file))
      && (r == Raised ==> fs' == fs)
      && (var run := ffmpeg(Mp3Command(file, mp3));
          Suffix(Name(file)) != ".mp3" && r.Return? ==>
            if run.exit.Exited? && run.output.Some? then mp3 in fs'.files && fs'.files[mp3] == run.output.value
            else SameAt(fs, fs', mp3))
      && SameExcept(fs, fs', {file, mp3})
  {
    var mp3 := WithSuffix(file, ".mp3");
    WithSuffixMoves(file, ".mp3");
    if Suffix(Name(file)) == ".mp3" {
      return fs, Return(file), [];
    }
    var cmd := Mp3Command(file, mp3);
    var run := ffmpeg(cmd);
    ran := [cmd];
    if run.exit.NotFound? {
      return fs, Raised, ran;
    }
    fs' := AfterFfmpeg(fs, mp3, run);
    if HasContent(fs', mp3) {
      // a failing unlink (the original is a directory) is swallowed
      fs' := Unlink(fs', file);
      r := Return(mp3);
    } else {
      r := Return(file);
    }
  }

  // ---------------------------------------------------------------------------
  // download_audio

  /** The project name used when the field is left empty. */
  const Fallback: string := "audio_temp"

  /** The name `download_audio` files the song under. */
  function FinalName(isAlnum: char -> bool, musicName: string): string
  {
    Sanitize.Sanitized(isAlnum, if musicName == "" then Fallback else musicName)
  }

  /** Where the download goes: `src/<final name>.mp3`. */
  function Destination(isAlnum: char -> bool, musicName: string): Path
  {
    SrcDir + [FinalName(isAlnum, musicName) + ".mp3"]
  }

  /**
   * `download_audio`: an empty name falls back to `audio_temp`; the song is filed under
   * the sanitized name, which is returned with the outcome of the download.
   */
  method DownloadAudio(fs: Fs, isAlnum: char -> bool, musicName: string, fetch: Fetch)
    returns (fs': Fs, r: Outcome<Option<Path>>, finalName: string)
    ensures finalName == FinalName(isAlnum, musicName)
    ensures var dest := Destination(isAlnum, musicName);
      && (r == Raised <==> dest in fs.dirs && dest !in fs.files)
      && (r == Raised ==> fs' == fs)
      && (r.Return? ==> SameExcept(fs, fs', {dest}))
      && (r == Return(Some(dest)) <==> r.Return? && Downloaded(fetch))
      && (r.Return? ==> r.value == None || r.value == Some(dest))
      && (r.Return? && fetch.Response? && fetch.statusOk ==>
            dest in fs'.files && fs'.files[dest] == Concat(fetch.chunks))
      && (r.Return? && !(fetch.Response? && fetch.statusOk) ==> dest !in fs'.files)
      && (r == Return(Some(dest)) ==> fs' == AfterDownload(fs, dest, fetch))
  {
    var name := if musicName == "" then Fallback else musicName;
    finalName := Sanitize.SanitizeName(isAlnum, name);
    fs', r := DownloadTo(fs, SrcDir + [finalName + ".mp3"], fetch);
  }

  /**
   * Only an empty name falls back to `audio_temp`: a non-empty name with no letter, digit
   * or `-` sanitizes to nothing, and the download is filed as `src/.mp3`, which has no
   * suffix, so its stems are looked for under `separated/htdemucs/.mp3`.
   */
  lemma DestinationUnnamed(isAlnum: char -> bool, musicName: string)
    requires musicName != "" && Sanitize.KeptChars(isAlnum, musicName) == ""
    ensures Destination(isAlnum, musicName) == SrcDir + [".mp3"]
    ensures Target(Destination(isAlnum, musicName)) == SeparatedDir + [".mp3"]
  {
    Sanitize.SanitizedEmpty(isAlnum, musicName);
    assert FinalName(isAlnum, musicName) == "";
    assert "" + ".mp3" == ".mp3";
    DotfileStem();
  }

  // ---------------------------------------------------------------------------
  // process_demucs

  /** The demucs command for a downloaded song. */
  function DemucsCommand(input: Path): Cmd
  {
    ["demucs", "-n", "htdemucs", Str(input)]
  }

  /** `SEPARATED_DIR / input_mp3.stem`, where demucs puts the stems of `input`. */
  function Target(input: Path): Path
  {
    Join(SeparatedDir, StemOf(Name(input)))
  }

  /** The mp3 conversion of the `k`-th stem. */
  function StemMp3(target: Path, k: nat): Path
    requires k < 4
  {
    target + [StemKeys[k] + ".mp3"]
  }

  /** The drums-and-bass mix. */
  function MixedFile(target: Path): Path
  {
    target + ["mixed_audio.mp3"]
  }

  /** The ffmpeg command that mixes drums and bass into `out`. */
  function MixCommand(drums: Path, bass: Path, out: Path): Cmd
  {
    ["ffmpeg", "-y", "-i", Str(drums), "-i", Str(bass),
     "-filter_complex", "amix=inputs=2:duration=longest",
     "-codec:a", "libmp3lame", "-qscale:a", "2", Str(out)]
  }

  /** The stem files of the first `n` stems and their conversions. */
  function StemArea(target: Path, n: nat): set<Path>
    requires n <= 4
  {
    if n == 0 then {} else StemArea(target, n - 1) + {StemWav(target, n - 1), StemMp3(target, n - 1)}
  }

  /** The conversions the loop runs: one per stem that exists, in the order of `StemFiles`. */
  function ConvertRuns(fs: Fs, target: Path, n: nat): seq<Cmd>
    requires n <= 4
  {
    if n == 0 then []
    else
      ConvertRuns(fs, target, n - 1)
      + (if Exists(fs, StemWav(target, n - 1)) then [Mp3Command(StemWav(target, n - 1), StemMp3(target, n - 1))] else [])
  }

  /** Each stem is a `.wav` that converts to the mp3 of the same name. */
  lemma StemConverts(target: Path, k: nat)
    requires k < 4
    ensures Suffix(Name(StemWav(target, k))) == ".wav" != ".mp3"
    ensures WithSuffix(StemWav(target, k), ".mp3") == StemMp3(target, k)
  {
    assert StemFiles[k] == StemKeys[k] + "." + "wav";
    SuffixOfDotted(StemKeys[k], "wav");
    assert ".wav"[1] != ".mp3"[1];
    assert Parent(StemWav(target, k)) == target;
  }

  /** The stem names start with different letters, so the stem paths and the mix differ. */
  lemma StemNamesDiffer(target: Path, k: nat, j: nat)
    requires k < 4 && j < 4
    ensures k != j ==> StemKeys[k] != StemKeys[j]
    ensures k != j ==> StemWav(target, k) != StemWav(target, j) && StemWav(target, k) != StemMp3(target, j)
    ensures k != j ==> StemMp3(target, k) != StemMp3(target, j) && StemMp3(target, k) != StemWav(target, j)
    ensures StemWav(target, k) != StemMp3(target, k)
    ensures StemWav(target, k) != MixedFile(target) && StemMp3(target, k) != MixedFile(target)
  {
    assert StemWav(target, k)[|target|][0] == StemKeys[k][0];
    assert StemMp3(target, k)[|target|][0] == StemKeys[k][0];
    assert StemWav(target, j)[|target|][0] == StemKeys[j][0];
    assert StemMp3(target, j)[|target|][0] == StemKeys[j][0];
    assert MixedFile(target)[|target|][0] == 'm';
    assert StemWav(target, k)[|target|][|StemKeys[k]| + 1] == 'w';
    assert StemMp3(target, k)[|target|][|StemKeys[k]| + 1] == 'm';
  }

  /** The later stems are outside the area of the earlier ones. */
  lemma {:induction false} OutsideStemArea(target: Path, k: nat, n: nat)
    requires n <= k < 4
    ensures StemWav(target, k) !in StemArea(target, n) && StemMp3(target, k) !in StemArea(target, n)
  {
    if n > 0 {
      OutsideStemArea(target, k, n - 1);
      StemNamesDiffer(target, k, n - 1);
    }
  }

  /** The mix lies outside the stems and their mp3s. */
  lemma {:induction false} MixOutsideStemArea(target: Path, n: nat)
    requires n <= 4
    ensures MixedFile(target) !in StemArea(target, n)
  {
    if n > 0 {
      MixOutsideStemArea(target, n - 1);
      StemNamesDiffer(target, n - 1, n - 1);
    }
  }

  /** The area of the first `i` stems lies within the area of the first `n`. */
  lemma {:induction false} StemAreaGrows(target: Path, i: nat, n: nat)
    requires i <= n <= 4
    ensures StemArea(target, i) <= StemArea(target, n)
    decreases n
  {
    if i < n {
      StemAreaGrows(target, i, n - 1);
    }
  }

  /** ffmpeg is missing when the loop comes to stem `k`, which exists. */
  predicate ConvertFails(fs: Fs, target: Path, ffmpeg: Cmd -> FfmpegRun, k: nat)
    requires k < 4
  {
    Exists(fs, StemWav(target, k)) && ffmpeg(Mp3Command(StemWav(target, k), StemMp3(target, k))).exit.NotFound?
  }

  /**
   * The path `convert_to_mp3` returns for stem `k` of `fs` when ffmpeg is found: its mp3
   * when ffmpeg left something non-empty there, the wav itself otherwise.
   */
  function Converted(fs: Fs, target: Path, ffmpeg: Cmd -> FfmpegRun, k: nat): Path
    requires k < 4
  {
    var mp3 := StemMp3(target, k);
    if HasContent(AfterFfmpeg(fs, mp3, ffmpeg(Mp3Command(StemWav(target, k), mp3))), mp3) then mp3
    else StemWav(target, k)
  }

  /**
   * Stem `k` in `fs`, compared with the file system `sep` demucs left: a stem that was not
   * there is untouched, with its mp3 path. A stem that was there has its mp3 path holding
   * what ffmpeg wrote (as it was, if ffmpeg wrote nothing), and its wav is gone exactly
   * when the mp3 is what `convert_to_mp3` returned.
   */
  predicate StemConvertedInPlace(sep: Fs, fs: Fs, target: Path, ffmpeg: Cmd -> FfmpegRun, k: nat)
    requires k < 4
  {
    var wav, mp3 := StemWav(target, k), StemMp3(target, k);
    var run := ffmpeg(Mp3Command(wav, mp3));
    if !Exists(sep, wav) then SameAt(sep, fs, wav) && SameAt(sep, fs, mp3)
    else
      && (if run.exit.Exited? && run.output.Some? then mp3 in fs.files && fs.files[mp3] == run.output.value
          else SameAt(sep, fs, mp3))
      && (if Converted(sep, target, ffmpeg, k) == mp3 then wav !in fs.files else SameAt(sep, fs, wav))
  }

  /**
   * What the loop leaves for stem `k`: its key is there iff its wav existed in `fs`, and then
   * names the path `convert_to_mp3` returned, which exists in `fs'`; the stem's files are as
   * converting left them.
   */
  predicate Recorded(fs: Fs, fs': Fs, stems: map<string, Path>, target: Path, ffmpeg: Cmd -> FfmpegRun, k: nat)
    requires k < 4
  {
    && (StemKeys[k] in stems <==> Exists(fs, StemWav(target, k)))
    && (StemKeys[k] in stems ==>
          stems[StemKeys[k]] == Converted(fs, target, ffmpeg, k) && Exists(fs', stems[StemKeys[k]]))
    && StemConvertedInPlace(fs, fs', target, ffmpeg, k)
  }

  /** A converted stem stays so through changes to other paths. */
  lemma ConvertedSurvives(sep: Fs, cur: Fs, fs': Fs, target: Path, ffmpeg: Cmd -> FfmpegRun, t: set<Path>, k: nat)
    requires k < 4 && StemWav(target, k) !in t && StemMp3(target, k) !in t
    requires SameExcept(cur, fs', t) && StemConvertedInPlace(sep, cur, target, ffmpeg, k)
    ensures StemConvertedInPlace(sep, fs', target, ffmpeg, k)
  {
    SameOutside(cur, fs', t, StemWav(target, k));
    SameOutside(cur, fs', t, StemMp3(target, k));
  }

  /** Converting stem `i` keeps what was recorded for another stem `k`. */
  lemma RecordedKept(fs: Fs, before: Fs, after: Fs, stems: map<string, Path>, target: Path,
                     ffmpeg: Cmd -> FfmpegRun, k: nat, i: nat, v: Path)
    requires k < 4 && i < 4 && k != i
    requires Recorded(fs, before, stems, target, ffmpeg, k)
    requires SameExcept(before, after, {StemWav(target, i), StemMp3(target, i)})
    ensures Recorded(fs, after, stems[StemKeys[i] := v], target, ffmpeg, k)
  {
    StemNamesDiffer(target, k, i);
    if StemKeys[k] in stems {
      SameOutside(before, after, {StemWav(target, i), StemMp3(target, i)}, stems[StemKeys[k]]);
    }
    ConvertedSurvives(fs, before, after, target, ffmpeg, {StemWav(target, i), StemMp3(target, i)}, k);
  }

  /** What the conversion loop has established once it has seen the first `i` stems. */
  predicate LoopState(fs: Fs, fs': Fs, stems: map<string, Path>, ran: seq<Cmd>, target: Path,
                      ffmpeg: Cmd -> FfmpegRun, i: nat)
    requires i <= 4
  {
    && SameExcept(fs, fs', StemArea(target, i))
    && ran == ConvertRuns(fs, target, i)
    && (forall key :: key in stems ==> key in StemKeys)
    && (forall k :: i <= k < 4 ==> StemKeys[k] !in stems)
    && (forall k :: 0 <= k < i ==> Recorded(fs, fs', stems, target, ffmpeg, k))
    && (forall k :: 0 <= k < i ==> !ConvertFails(fs, target, ffmpeg, k))
  }

  /**
   * `mp3_stems` after the loop, seen from the file system demucs left: a key for exactly
   * the stems that exist there, each naming what `convert_to_mp3` returned for it.
   */
  predicate StemsOf(sep: Fs, target: Path, ffmpeg: Cmd -> FfmpegRun, stems: map<string, Path>)
  {
    && (forall key :: key in stems ==> key in StemKeys)
    && (forall k :: 0 <= k < 4 ==> (StemKeys[k] in stems <==> Exists(sep, StemWav(target, k))))
    && (forall k :: 0 <= k < 4 && StemKeys[k] in stems ==> stems[StemKeys[k]] == Converted(sep, target, ffmpeg, k))
  }

  /** The facts about the file system that carry the loop from stem `i` to stem `i + 1`. */
  lemma StemStep(fs: Fs, cur: Fs, cur': Fs, stems: map<string, Path>, ran: seq<Cmd>, target: Path,
                 ffmpeg: Cmd -> FfmpegRun, i: nat)
    requires i < 4 && LoopState(fs, cur, stems, ran, target, ffmpeg, i)
    requires SameExcept(cur, cur', {StemWav(target, i), StemMp3(target, i)})
    ensures SameExcept(fs, cur', StemArea(target, i + 1))
    ensures Exists(cur, StemWav(target, i)) <==> Exists(fs, StemWav(target, i))
    ensures ConvertFails(cur, target, ffmpeg, i) <==> ConvertFails(fs, target, ffmpeg, i)
    ensures Converted(cur, target, ffmpeg, i) == Converted(fs, target, ffmpeg, i)
    ensures SameAt(fs, cur, StemWav(target, i)) && SameAt(fs, cur, StemMp3(target, i))
  {
    OutsideStemArea(target, i, i);
    SameOutside(fs, cur, StemArea(target, i), StemWav(target, i));
    SameOutside(fs, cur, StemArea(target, i), StemMp3(target, i));
    SameExceptChain(fs, cur, cur', StemArea(target, i), {StemWav(target, i), StemMp3(target, i)});
  }

  /** Recording the conversion of stem `i`, which existed, takes the loop from `i` to `i + 1`. */
  lemma StemRecorded(fs: Fs, cur: Fs, cur': Fs, stems: map<string, Path>, ran: seq<Cmd>, target: Path,
                     ffmpeg: Cmd -> FfmpegRun, i: nat, v: Path)
    requires i < 4 && LoopState(fs, cur, stems, ran, target, ffmpeg, i)
    requires Exists(fs, StemWav(target, i)) && !ConvertFails(fs, target, ffmpeg, i)
    requires SameExcept(cur, cur', {StemWav(target, i), StemMp3(target, i)})
    requires v == Converted(fs, target, ffmpeg, i) && Exists(cur', v)
    requires StemConvertedInPlace(cur, cur', target, ffmpeg, i)
    ensures LoopState(fs, cur', stems[StemKeys[i] := v],
                      ran + [Mp3Command(StemWav(target, i), StemMp3(target, i))], target, ffmpeg, i + 1)
  {
    var stems' := stems[StemKeys[i] := v];
    StemStep(fs, cur, cur', stems, ran, target, ffmpeg, i);
    assert Recorded(fs, cur', stems', target, ffmpeg, i);
    forall k | 0 <= k < i
      ensures Recorded(fs, cur', stems', target, ffmpeg, k)
    {
      RecordedKept(fs, cur, cur', stems, target, ffmpeg, k, i, v);
    }
    forall k | i < k < 4
      ensures StemKeys[k] !in stems'
    {
      StemNamesDiffer(target, k, i);
    }
  }

  /**
   * One pass of the loop body, `if stem_path.exists(): convert_to_mp3(stem_path)`: the
   * path returned for stem `i` if it exists, which exists afterwards; the stem is converted
   * in place.
   */
  method ConvertStem(cur: Fs, target: Path, ffmpeg: Cmd -> FfmpegRun, i: nat)
    returns (cur': Fs, v: Outcome<Option<Path>>, cmds: seq<Cmd>)
    requires i < 4
    ensures SameExcept(cur, cur', {StemWav(target, i), StemMp3(target, i)})
    ensures cmds == if Exists(cur, StemWav(target, i)) then [Mp3Command(StemWav(target, i), StemMp3(target, i))] else []
    ensures v == Raised <==> ConvertFails(cur, target, ffmpeg, i)
    ensures v.Return? ==> (v.value.Some? <==> Exists(cur, StemWav(target, i)))
    ensures v == Return(None) ==> cur' == cur
    ensures v.Return? && v.value.Some? ==>
      v.value.value == Converted(cur, target, ffmpeg, i) && Exists(cur', v.value.value)
    ensures v.Return? ==> StemConvertedInPlace(cur, cur', target, ffmpeg, i)
  {
    var wav := StemWav(target, i);
    StemConverts(target, i);
    if !Exists(cur, wav) {
      return cur, Return(None), [];
    }
    var converted;
    cur', converted, cmds := ConvertToMp3(cur, wav, ffmpeg);
    if converted == Raised {
      return cur', Raised, cmds;
    }
    v := Return(Some(converted.value));
  }

  /**
   * The loop of `process_demucs` over the four stems: every stem that exists is converted
   * and recorded under its key (`Recorded`); stems that do not exist get no key. Only the
   * stem files and their mp3s change. A missing ffmpeg raises at the first existing stem.
   */
  method ConvertStems(fs: Fs, target: Path, ffmpeg: Cmd -> FfmpegRun)
    returns (fs': Fs, r: Outcome<map<string, Path>>, ran: seq<Cmd>)
    ensures SameExcept(fs, fs', StemArea(target, 4))
    ensures r.Return? ==> ran == ConvertRuns(fs, target, 4)
    ensures r.Return? ==> StemsOf(fs, target, ffmpeg, r.value)
    ensures r.Return? ==> forall key :: key in r.value ==> Exists(fs', r.value[key])
    ensures r.Return? ==> forall k :: 0 <= k < 4 ==> StemConvertedInPlace(fs, fs', target, ffmpeg, k)
    ensures r == Raised <==> exists k :: 0 <= k < 4 && ConvertFails(fs, target, ffmpeg, k)
  {
    fs' := fs;
    var stems: map<string, Path> := map[];
    ran := [];
    for i := 0 to 4
      invariant LoopState(fs, fs', stems, ran, target, ffmpeg, i)
    {
      var before := fs';
      var converted, cmds;
      fs', converted, cmds := ConvertStem(fs', target, ffmpeg, i);
      StemStep(fs, before, fs', stems, ran, target, ffmpeg, i);
      if converted == Raised {
        StemAreaGrows(target, i + 1, 4);
        return fs', Raised, ran + cmds;
      }
      if converted.value.Some? {
        StemRecorded(fs, before, fs', stems, ran, target, ffmpeg, i, converted.value.value);
        stems := stems[StemKeys[i] := converted.value.value];
      }
      ran := ran + cmds;
    }
    LoopDone(fs, fs', stems, ran, target, ffmpeg);
    r := Return(stems);
  }

  /** At the end of the loop every stem has been seen. */
  lemma LoopDone(fs: Fs, fs': Fs, stems: map<string, Path>, ran: seq<Cmd>, target: Path, ffmpeg: Cmd -> FfmpegRun)
    requires LoopState(fs, fs', stems, ran, target, ffmpeg, 4)
    ensures StemsOf(fs, target, ffmpeg, stems)
    ensures forall key :: key in stems ==> Exists(fs', stems[key])
    ensures forall k :: 0 <= k < 4 ==> StemConvertedInPlace(fs, fs', target, ffmpeg, k)
    ensures !exists k :: 0 <= k < 4 && ConvertFails(fs, target, ffmpeg, k)
  {
    forall k | 0 <= k < 4
      ensures StemKeys[k] in stems <==> Exists(fs, StemWav(target, k))
      ensures StemKeys[k] in stems ==> stems[StemKeys[k]] == Converted(fs, target, ffmpeg, k)
      ensures StemConvertedInPlace(fs, fs', target, ffmpeg, k)
    {
      assert Recorded(fs, fs', stems, target, ffmpeg, k);
    }
    forall key | key in stems
      ensures Exists(fs', stems[key])
    {
      var k :| 0 <= k < 4 && StemKeys[k] == key;
      assert Recorded(fs, fs', stems, target, ffmpeg, k);
    }
  }

  /** Drums and bass both came out of demucs, so `process_demucs` mixes them. */
  predicate BothStems(sep: Fs, target: Path)
  {
    Exists(sep, StemWav(target, 1)) && Exists(sep, StemWav(target, 2))
  }

  /** The mix `process_demucs` runs: the drums and bass as `convert_to_mp3` returned them. */
  function MixRun(sep: Fs, target: Path, ffmpeg: Cmd -> FfmpegRun): Cmd
  {
    MixCommand(Converted(sep, target, ffmpeg, 1), Converted(sep, target, ffmpeg, 2), MixedFile(target))
  }

  /**
   * When `process_demucs` on `input` ends in an exception: demucs is missing, or demucs
   * succeeded, the song's folder is there and ffmpeg turns out to be missing, either at a
   * stem to convert or at the mix.
   */
  predicate ProcessRaises(fs: Fs, input: Path, demucs: DemucsRun, ffmpeg: Cmd -> FfmpegRun)
  {
    var sep := AfterDemucs(fs, demucs);
    var target := Target(input);
    || demucs.exit.NotFound?
    || (&& demucs.exit == Exited(0)
        && Exists(sep, target)
        && ((exists k :: 0 <= k < 4 && ConvertFails(sep, target, ffmpeg, k))
            || (BothStems(sep, target) && ffmpeg(MixRun(sep, target, ffmpeg)).exit.NotFound?)))
  }

  /**
   * Writing the mix and deleting the downloaded mp3 keep the converted stems, and every
   * recorded path other than the mp3.
   */
  lemma MixKeepsConversions(sep: Fs, cur: Fs, fs': Fs, target: Path, input: Path,
                            stems: map<string, Path>, ffmpeg: Cmd -> FfmpegRun)
    requires StemsOf(sep, target, ffmpeg, stems)
    requires SameExcept(cur, fs', {MixedFile(target), input}) && input !in fs'.files
    requires forall key :: key in stems ==> Exists(cur, stems[key])
    requires forall k :: 0 <= k < 4 ==> StemConvertedInPlace(sep, cur, target, ffmpeg, k)
    ensures forall key :: key in stems && stems[key] != input ==> Exists(fs', stems[key])
    ensures forall k :: 0 <= k < 4 && StemWav(target, k) != input && StemMp3(target, k) != input ==>
      StemConvertedInPlace(sep, fs', target, ffmpeg, k)
  {
    forall key | key in stems && stems[key] != input
      ensures Exists(fs', stems[key])
    {
      var k :| 0 <= k < 4 && StemKeys[k] == key;
      StemNamesDiffer(target, k, k);
      assert stems[key] == Converted(sep, target, ffmpeg, k);
      SameOutside(cur, fs', {MixedFile(target), input}, stems[key]);
    }
    forall k | 0 <= k < 4 && StemWav(target, k) != input && StemMp3(target, k) != input
      ensures StemConvertedInPlace(sep, fs', target, ffmpeg, k)
    {
      StemNamesDiffer(target, k, k);
      ConvertedSurvives(sep, cur, fs', target, ffmpeg, {MixedFile(target), input}, k);
    }
  }

  /**
   * What `process_demucs` leaves on `True`, against the tree `sep` demucs left for `input`:
   * the downloaded mp3 is gone; only the stems, their mp3s, the mix and the mp3 have
   * changed; every stem whose paths are not the mp3's is converted in place; and the mix
   * holds what ffmpeg wrote when drums and bass were mixed and ffmpeg wrote something, and
   * is as demucs left it otherwise.
   */
  predicate Processed(sep: Fs, fs': Fs, input: Path, ffmpeg: Cmd -> FfmpegRun)
  {
    var target := Target(input);
    var run := ffmpeg(MixRun(sep, target, ffmpeg));
    && input !in fs'.files
    && SameExcept(sep, fs', StemArea(target, 4) + {MixedFile(target), input})
    && (forall k :: 0 <= k < 4 && StemWav(target, k) != input && StemMp3(target, k) != input ==>
          StemConvertedInPlace(sep, fs', target, ffmpeg, k))
    && (MixedFile(target) != input ==>
          if BothStems(sep, target) && run.exit.Exited? && run.output.Some? then
            MixedFile(target) in fs'.files && fs'.files[MixedFile(target)] == run.output.value
          else SameAt(sep, fs', MixedFile(target)))
  }

  /**
   * `process_demucs`: `False` exactly when demucs exits with a failure or leaves no
   * directory for the song; an exception exactly as `ProcessRaises` says; `True` in every
   * other case, whatever the mix's exit status. On `True` the stems are converted in place,
   * every recorded path other than the mp3 exists, drums and bass are mixed exactly when
   * both were produced, and the downloaded mp3 is deleted; the mix holds what ffmpeg wrote,
   * and is as demucs left it when the mix did not run or wrote nothing; nothing outside the
   * stems, their mp3s, the mix and the mp3 changes. An exception after demucs has run leaves the mix
   * and the mp3 alone, since it comes before either is touched.
   */
  method ProcessDemucs(fs: Fs, input: Path, demucs: DemucsRun, ffmpeg: Cmd -> FfmpegRun)
    returns (fs': Fs, r: Outcome<bool>, stems: map<string, Path>, ran: seq<Cmd>)
    requires input != []
    ensures ran != [] && ran[0] == DemucsCommand(input)
    ensures demucs.exit.NotFound? ==> r == Raised && fs' == fs && ran == [DemucsCommand(input)]
    ensures r == Raised <==> ProcessRaises(fs, input, demucs, ffmpeg)
    ensures r == Return(false) <==>
      demucs.exit.Exited? && (demucs.exit.code != 0 || !Exists(AfterDemucs(fs, demucs), Target(input)))
    ensures r == Return(false) ==> fs' == AfterDemucs(fs, demucs) && ran == [DemucsCommand(input)]
    ensures r == Return(true) <==>
      demucs.exit == Exited(0) && Exists(AfterDemucs(fs, demucs), Target(input)) && !ProcessRaises(fs, input, demucs, ffmpeg)
    ensures var sep := AfterDemucs(fs, demucs); var target := Target(input);
      r == Return(true) ==>
        && StemsOf(sep, target, ffmpeg, stems)
        && ran == [DemucsCommand(input)] + ConvertRuns(sep, target, 4)
                  + (if BothStems(sep, target) then [MixRun(sep, target, ffmpeg)] else [])
        && (forall key :: key in stems && stems[key] != input ==> Exists(fs', stems[key]))
        && Processed(sep, fs', input, ffmpeg)
    ensures r == Raised && demucs.exit.Exited? ==> SameExcept(AfterDemucs(fs, demucs), fs', StemArea(Target(input), 4))
  {
    var cmd := DemucsCommand(input);
    ran := [cmd];
    stems := map[];
    if demucs.exit.NotFound? {
      return fs, Raised, stems, ran;
    }
    var sep := AfterDemucs(fs, demucs);
    if demucs.exit.code != 0 {
      return sep, Return(false), stems, ran;
    }
    var target := Target(input);
    if !Exists(sep, target) {
      return sep, Return(false), stems, ran;
    }
    var converted, cmds;
    fs', converted, cmds := ConvertStems(sep, target, ffmpeg);
    ran := ran + cmds;
    if converted == Raised {
      return fs', Raised, stems, ran;
    }
    stems := converted.value;
    var cur := fs';
    MixOutsideStemArea(target, 4);
    SameOutside(sep, cur, StemArea(target, 4), MixedFile(target));
    var mixed;
    fs', mixed, cmds := MixAndDelete(sep, cur, target, input, stems, ffmpeg);
    ran := ran + cmds;
    if mixed == Raised {
      return fs', Raised, stems, ran;
    }
    SameExceptChain(sep, cur, fs', StemArea(target, 4), {MixedFile(target), input});
    MixKeepsConversions(sep, cur, fs', target, input, stems, ffmpeg);
    r := Return(true);
  }

  /**
   * The end of `process_demucs`, after the loop: drums and bass are mixed when both are
   * recorded and exist, whatever ffmpeg's exit status (only a missing binary raises); then
   * the downloaded mp3 is deleted, a failure there being swallowed. The mix file holds what
   * ffmpeg wrote, and is as it was when the mix did not run or wrote nothing.
   */
  method MixAndDelete(sep: Fs, cur: Fs, target: Path, input: Path, stems: map<string, Path>, ffmpeg: Cmd -> FfmpegRun)
    returns (fs': Fs, r: Outcome<()>, cmds: seq<Cmd>)
    requires StemsOf(sep, target, ffmpeg, stems)
    requires forall key :: key in stems ==> Exists(cur, stems[key])
    ensures cmds == if BothStems(sep, target) then [MixRun(sep, target, ffmpeg)] else []
    ensures r == Raised <==> BothStems(sep, target) && ffmpeg(MixRun(sep, target, ffmpeg)).exit.NotFound?
    ensures r == Raised ==> fs' == cur
    ensures r.Return? ==> input !in fs'.files && SameExcept(cur, fs', {MixedFile(target), input})
    ensures var run := ffmpeg(MixRun(sep, target, ffmpeg));
      r.Return? && BothStems(sep, target) && run.exit.Exited? && run.output.Some? && MixedFile(target) != input ==>
        MixedFile(target) in fs'.files && fs'.files[MixedFile(target)] == run.output.value
    ensures var run := ffmpeg(MixRun(sep, target, ffmpeg));
      r.Return? && MixedFile(target) != input && !(BothStems(sep, target) && run.exit.Exited? && run.output.Some?) ==>
        SameAt(cur, fs', MixedFile(target))
  {
    assert StemKeys[1] == "drums" && StemKeys[2] == "bass";
    assert "drums" in stems <==> Exists(sep, StemWav(target, 1));
    assert "bass" in stems <==> Exists(sep, StemWav(target, 2));
    var mixed := cur;
    cmds := [];
    if "drums" in stems && "bass" in stems && Exists(cur, stems["drums"]) && Exists(cur, stems["bass"]) {
      assert stems["drums"] == Converted(sep, target, ffmpeg, 1) && stems["bass"] == Converted(sep, target, ffmpeg, 2);
      var mix := MixCommand(stems["drums"], stems["bass"], MixedFile(target));
      var run := ffmpeg(mix);
      cmds := [mix];
      if run.exit.NotFound? {
        return cur, Raised, cmds;
      }
      mixed := AfterFfmpeg(cur, MixedFile(target), run);
    }
    // a failing unlink is swallowed
    fs' := Unlink(mixed, input);
    FfmpegThenUnlink(cur, MixedFile(target), ffmpeg(MixRun(sep, target, ffmpeg)), input);
    r := Return(());
  }

  // ---------------------------------------------------------------------------
  // The sidebar button

  /** What the sidebar shows after the button: a warning, nothing more, or the success message. */
  datatype Notice = UrlRequired | NameRequired | Stopped | Finished

  /** The mix is never the downloaded song, which sits directly under `src`. */
  lemma MixNotSong(song: Path)
    requires |song| == 2
    ensures MixedFile(Target(song)) != song
  {
    assert |MixedFile(Target(song))| >= 3;
  }

  /**
   * The end of the handler, once the song is downloaded at `song`: `process_demucs` on it,
   * and the success message exactly when that returns `True`.
   */
  method SeparateSong(downloaded: Fs, song: Path, demucs: DemucsRun, ffmpeg: Cmd -> FfmpegRun)
    returns (fs': Fs, r: Outcome<Notice>, ran: seq<Cmd>)
    requires song != []
    ensures r == Raised || r == Return(Stopped) || r == Return(Finished)
    ensures ran != [] && ran[0] == DemucsCommand(song)
    ensures r == Raised <==> ProcessRaises(downloaded, song, demucs, ffmpeg)
    ensures r == Return(Finished) <==>
      && demucs.exit == Exited(0)
      && Exists(AfterDemucs(downloaded, demucs), Target(song))
      && !ProcessRaises(downloaded, song, demucs, ffmpeg)
    ensures r == Return(Finished) ==> Processed(AfterDemucs(downloaded, demucs), fs', song, ffmpeg)
    ensures r == Raised ==>
      && (demucs.exit.NotFound? ==> fs' == downloaded)
      && (demucs.exit.Exited? ==> SameExcept(AfterDemucs(downloaded, demucs), fs', StemArea(Target(song), 4)))
    ensures r == Return(Stopped) ==> fs' == AfterDemucs(downloaded, demucs)
  {
    var success, stems;
    fs', success, stems, ran := ProcessDemucs(downloaded, song, demucs, ffmpeg);
    if success == Raised {
      r := Raised;
    } else if success.value {
      r := Return(Finished);
    } else {
      r := Return(Stopped);
    }
  }

  /**
   * The `INICIAR PROCESSAMENTO` handler: both fields are required; the song is downloaded
   * under its sanitized name and separated. It raises exactly when a directory sits at the
   * destination or `process_demucs` raises on the completed download; success is reported
   * exactly when the download completed, demucs produced the song's directory and nothing
   * raised; every other case ends without a message.
   *
   * What changes: without a completed download, only the destination; a directory there
   * raises and changes nothing. After a completed download, demucs writes its files; a
   * missing demucs raises with nothing else changed, and `False` changes nothing else.
   * A raise after demucs ran changes only the stems and their mp3s; on success also the mix
   * and the downloaded mp3, with the stems converted in place and the mix holding what
   * ffmpeg wrote (as demucs left it, when the mix did not run or wrote nothing).
   */
  method HandleSubmit(fs: Fs, isAlnum: char -> bool, url: string, musicName: string,
                      fetch: Fetch, demucs: DemucsRun, ffmpeg: Cmd -> FfmpegRun)
    returns (fs': Fs, r: Outcome<Notice>, ran: seq<Cmd>)
    ensures url == "" ==> r == Return(UrlRequired) && fs' == fs && ran == []
    ensures url != "" && musicName == "" ==> r == Return(NameRequired) && fs' == fs && ran == []
    ensures url != "" && musicName != "" && !Downloaded(fetch) ==> ran == [] && r != Return(Finished)
    ensures var dest := Destination(isAlnum, musicName);
      r == Raised <==>
        url != "" && musicName != ""
        && ((dest in fs.dirs && dest !in fs.files)
            || (Downloaded(fetch) && ProcessRaises(AfterDownload(fs, dest, fetch), dest, demucs, ffmpeg)))
    ensures var dest := Destination(isAlnum, musicName);
      r == Return(Finished) <==>
        && url != "" && musicName != "" && Downloaded(fetch)
        && !(dest in fs.dirs && dest !in fs.files)
        && demucs.exit == Exited(0)
        && Exists(AfterDemucs(AfterDownload(fs, dest, fetch), demucs), Target(dest))
        && !ProcessRaises(AfterDownload(fs, dest, fetch), dest, demucs, ffmpeg)
    ensures var dest := Destination(isAlnum, musicName);
      r == Return(Finished) ==>
        && ran != [] && ran[0] == DemucsCommand(dest)
        && MixedFile(Target(dest)) != dest
        && Downloaded(fetch)
        && Processed(AfterDemucs(AfterDownload(fs, dest, fetch), demucs), fs', dest, ffmpeg)
    ensures var dest := Destination(isAlnum, musicName);
      r == Raised ==>
        if dest in fs.dirs && dest !in fs.files then fs' == fs
        else
          && Downloaded(fetch)
          && (demucs.exit.NotFound? ==> fs' == AfterDownload(fs, dest, fetch))
          && (demucs.exit.Exited? ==>
                SameExcept(AfterDemucs(AfterDownload(fs, dest, fetch), demucs), fs', StemArea(Target(dest), 4)))
    ensures var dest := Destination(isAlnum, musicName);
      r == Return(Stopped) ==>
        if Downloaded(fetch) then fs' == AfterDemucs(AfterDownload(fs, dest, fetch), demucs)
        else SameExcept(fs, fs', {dest})
  {
    fs' := fs;
    ran := [];
    if url == "" {
      return fs, Return(UrlRequired), ran;
    }
    if musicName == "" {
      return fs, Return(NameRequired), ran;
    }
    var mp3, finalName;
    fs', mp3, finalName := DownloadAudio(fs, isAlnum, musicName, fetch);
    if mp3 == Raised {
      return fs', Raised, ran;
    }
    if mp3.value == None || !Exists(fs', mp3.value.value) {
      return fs', Return(Stopped), ran;
    }
    ghost var dest := Destination(isAlnum, musicName);
    assert mp3.value.value == dest && Downloaded(fetch);
    assert fs' == AfterDownload(fs, dest, fetch);
    MixNotSong(dest);
    fs', r, ran := SeparateSong(fs', mp3.value.value, demucs, ffmpeg);
  }
}
