# sound-ai pipeline model

A Dafny model of the decision logic of sound-ai's three music-separation dashboards and
its command-line mixer. Each dashboard downloads a song from a YouTube-to-mp3 service,
separates it into stems (vocals, drums, bass, other) with demucs, and mixes drums and
bass with ffmpeg:

- `src/main.py` sanitizes the project name, files the download under `src/`, converts
  the stems to mp3 and lists the sessions newest first.
- `src/streamlit.py` cleans the name, compresses each stem in place as ADPCM wav and
  shows a gallery of the folders that hold a mix.
- `src/scripts/app.py` always downloads to `src/temp_audio.mp3`, reports download
  progress, clears the song's old folder and runs the stages strictly in order.
- `src/mix_audio_cli.py` splits its argument list and mixes any number of files.

The file system is a value `Fs` (regular files with contents, and directories) passed
from step to step. demucs, ffmpeg and the download service are oracles given as
parameters:

- a demucs run says how it ended and what it created;
- an ffmpeg run says how it ended and what it left at its output path;
- a fetch says whether the service answered, and gives the chunks it delivered and
  whether the stream ended normally.

An exception the scripts do not catch ends a run as `Raised`. Loops in the source
(sanitizing, writing chunks, the stem loops, the in-place sort, the gallery filter) are
methods with loop invariants, proved against specification functions. Those functions
carry the lemmas: idempotence and fixed points of the name sanitizer, the round trip of
the `amix` input count, and monotone progress. Each file operation, and each stage
built from them, states for every outcome which paths it may change. The orchestrating methods also state,
as conditions on the inputs and the oracles, exactly when they raise and which result or
status they return.

Functions without a contract of their own are the definitions the lemmas are about:
`Sanitize.ReplacePairs`, `CleanName.Cleaned`, `StreamlitApp.WithMix`,
`StreamlitApp.CompressedPath`, `MainApp.Target`, `MainApp.Converted`,
`ExtractorApp.TotalSize`, `ExtractorApp.TooSmall`, `Catalog.At`, `MainApp.Processed` and the like. The table below cites them
through the rows of the lemmas and methods that state their properties.

Modules:

- `Base`: options, outcomes, commands, exit statuses, byte chunks.
- `FileSystem`: paths, `pathlib` suffix/stem, file operations, tool oracles.
- `Fetching`: the shared download routine.
- `Sanitize`: `sanitize_name` of `src/main.py`.
- `CleanName`: the inline name cleaner of `src/streamlit.py`.
- `Catalog`: the newest-first session list.
- `MixCli`: `src/mix_audio_cli.py`.
- `MainApp`: `src/main.py`.
- `StreamlitApp`: `src/streamlit.py`.
- `ExtractorApp`: `src/scripts/app.py`.

Two consequences of the code as written are stated as lemmas rather than corrected:

- In `src/main.py`, only an empty name falls back to `audio_temp`. A name with no
  letter, digit or `-` is filed as `src/.mp3`, and its stems are looked for under
  `separated/htdemucs/.mp3` (`MainApp.DestinationUnnamed`).
- In `src/streamlit.py`, the folder the dashboard looks in is the folder demucs writes
  to exactly when the cleaned name is not empty (`StreamlitApp.TargetIsDemucsDirectory`).

## Model

| member | source | states |
|---|---|---|
| Sanitize.MapChars | src/main.py:26 | Every character is kept when it is alphanumeric, `-` or `_`, and replaced by `_` otherwise; the length is unchanged. |
| Sanitize.ReplacePairsShrinks | src/main.py:27-28 | One `replace("__", "_")` pass never lengthens the name, and shortens it while `__` remains, so the `while` loop terminates. |
| Sanitize.CollapseReplacePairs | src/main.py:27-28 | A replace pass does not change what the loop ends with, so the loop's result is the collapse of the mapped name. |
| Sanitize.CollapseNoDouble | src/main.py:27-28 | After the loop, no `__` is left. |
| Sanitize.CollapseDrop | src/main.py:27-28 | Collapsing runs of `_` changes nothing but underscores. |
| Sanitize.StripSlice | src/main.py:29 | `strip("_")` leaves a slice that neither starts nor ends with `_` and removes nothing but underscores. |
| Sanitize.SanitizeName | src/main.py:24-29 | The loop computes the sanitized name; every character is alphanumeric, `-` or `_`; it holds no `__`. |
| Sanitize.SanitizedAlphabet | src/main.py:26-29 | Every character of the result is alphanumeric, `-` or `_`. |
| Sanitize.SanitizedShape | src/main.py:27-29 | The result holds no `__` and neither starts nor ends with `_`. |
| Sanitize.SanitizedKeepsOrder | src/main.py:26-29 | Dropping `_` from the result leaves exactly the input's alphanumeric and `-` characters in order; the result is never longer than the input. |
| Sanitize.SanitizedFixedPoints | src/main.py:24-29 | A name is left unchanged exactly when it is clean: allowed characters only, no `__`, no `_` at either end. |
| Sanitize.SanitizedIdempotent | src/main.py:24-29 | Sanitizing twice is the same as sanitizing once. |
| Sanitize.SanitizedEmpty | src/main.py:26-29 | The result is empty exactly when the input has no alphanumeric or `-` character. |
| CleanName.FilterAllowedFacts | src/streamlit.py:126 | The filter keeps only alphanumerics, space, `_` and `-`, as a subsequence of the input. |
| CleanName.CleanedSlice | src/streamlit.py:126 | The cleaned name is a slice of the filtered name and a subsequence of the input, with no whitespace at either end. |
| CleanName.CleanedAlphabet | src/streamlit.py:126 | Every character of the cleaned name is alphanumeric, space, `_` or `-`. |
| CleanName.CleanedShape | src/streamlit.py:126 | The cleaned name is a subsequence of the input and starts and ends with neither a space nor other whitespace. |
| CleanName.CleanedIdempotent | src/streamlit.py:126 | Cleaning twice is the same as cleaning once. |
| MixCli.Decimal | src/mix_audio_cli.py:38 | The decimal rendering of a count is a non-empty string of digits. |
| MixCli.DecimalRoundTrip | src/mix_audio_cli.py:38 | Reading back the digits gives the count. |
| MixCli.AmixFilterCountsInputs | src/mix_audio_cli.py:35-38 | The `amix` filter string names exactly the number of inputs. |
| MixCli.InputArgs | src/mix_audio_cli.py:31-32 | Each input becomes the pair `-i`, file, in order. |
| MixCli.MixCommand | src/mix_audio_cli.py:28-40 | The command is `ffmpeg -y`, one `-i` pair per input in order, `-filter_complex`, a filter naming the input count, and the output last. |
| MixCli.MixAudioFiles | src/mix_audio_cli.py:13-64 | A missing input fails before anything runs; otherwise ffmpeg runs once, and the result is true exactly when it exits with 0 (a failing run and a missing binary both give false). |
| MixCli.IndexOf | src/mix_audio_cli.py:80 | `args.index("-o")` is the first position of `-o`. |
| MixCli.ParseArgv | src/mix_audio_cli.py:68-95 | Fewer than three arguments give usage; the inputs are what precedes the first `-o` (or all but the last argument when there is none), at least two of them, none of them `-o`; the output follows `-o` and is not empty, or is the last argument. |
| MixCli.ParseWithFlag | src/mix_audio_cli.py:79-86 | Inputs, `-o`, an output and anything after parse to those inputs and that output. |
| MixCli.ParseWithoutFlag | src/mix_audio_cli.py:87-90 | Without `-o`, the last argument is the output and the rest are inputs. |
| MixCli.ParseMissingOutput | src/mix_audio_cli.py:79-86 | `-o` as the last argument, or followed by an empty string, is an error whenever there are at least three arguments, `prog -o ""` included. |
| MixCli.CliMain | src/mix_audio_cli.py:67-105 | Argument errors exit with 1 and run nothing; otherwise the exit status is 0 exactly when every input exists and ffmpeg exits with 0. |
| FileSystem.StemAndSuffix | src/main.py:32-35 | A name is its stem followed by its suffix; a suffix is a dot and at least one further character, none of them a dot. |
| FileSystem.SuffixOfDotted | src/main.py:92 | `stem.ext` has suffix `.ext` and stem `stem` when the stem is not empty and `ext` has no dot. |
| FileSystem.DotfileStem | src/main.py:92 | `.mp3` has no suffix and is its own stem. |
| FileSystem.WithSuffixMoves | src/main.py:32-35 | `with_suffix(".mp3")` lands on the same path exactly when the suffix is already `.mp3`. |
| FileSystem.RemoveTreeRemoves | src/scripts/app.py:128-129 | `rmtree` removes exactly the paths at or below its root and leaves every other file's content as it was. |
| FileSystem.FfmpegThenUnlink | src/main.py:107-126 | Running ffmpeg on one path and then deleting another changes only those two paths, removes the second, and leaves the first holding ffmpeg's output when it wrote one and as it was otherwise. |
| Fetching.WriteChunks | src/main.py:71-74 | The file holds exactly the chunks, in order, and nothing it held before. |
| Fetching.DownloadTo | src/main.py:61-78 | A directory at the destination raises; otherwise only the destination changes, the path comes back exactly when the request, status check and stream all succeed, and a response that passes the status check leaves exactly its chunks in the file. |
| Catalog.Insert | src/main.py:165-169 | Inserting into a newest-first list keeps it newest first and adds exactly that session. |
| Catalog.ByRecency | src/main.py:165-169 | `sorted(..., key=mtime, reverse=True)` is newest first and holds the same sessions. |
| Catalog.InsertStable | src/main.py:165-169 | Inserting a session puts it in front of every listed session with the same modification time and keeps their order. |
| Catalog.ByRecencyStable | src/main.py:165-169 | The sort is stable: sessions with equal modification times keep the order in which they were listed. |
| Catalog.SwapDown | src/streamlit.py:143 | Exchanging two neighbouring sessions keeps the same sessions and leaves every other slot as it was. |
| Catalog.InsertAt | src/streamlit.py:143 | One insertion step extends the newest-first prefix by one and permutes the array. The sessions after position `i` stay where they were. |
| Catalog.SortByRecency | src/streamlit.py:142-143 | The in-place sort leaves the array newest first, holding the same sessions. |
| MainApp.ConvertToMp3 | src/main.py:31-52 | An mp3 comes back unchanged. Otherwise the mp3 comes back exactly when ffmpeg ran and left something non-empty there, and the original is then gone. A returned original keeps its content. Whichever path comes back, the mp3 path holds what ffmpeg wrote, and is left as it was when ffmpeg wrote nothing. A missing binary raises and changes nothing. Only the file and its mp3 change. |
| MainApp.DownloadAudio | src/main.py:54-78 | The song is filed under the sanitized name (`audio_temp` for an empty one). A directory there raises and changes nothing. The path comes back exactly when the download completes, and the file then holds exactly the chunks. A failed request leaves no file there, since the old one is deleted first. Only that path changes. |
| MainApp.DestinationUnnamed | src/main.py:55-59 | A non-empty name with no alphanumeric or `-` character is filed as `src/.mp3`, and its stems are looked for under `separated/htdemucs/.mp3`. |
| MainApp.StemConverts | src/main.py:101-104 | Each stem has suffix `.wav`, so it is converted, and its mp3 is `<key>.mp3` beside it. |
| MainApp.StemNamesDiffer | src/main.py:97-109 | The four keys, wav files and mp3 files are pairwise distinct and differ from `mixed_audio.mp3`. |
| MainApp.ConvertedSurvives | src/main.py:101-126 | A converted stem, with its wav and mp3, stays as converting left it through changes to other paths. |
| MainApp.RecordedKept | src/main.py:101-105 | A stem already recorded stays recorded, and stays converted in place, while a later stem is converted. |
| MainApp.StemStep | src/main.py:101-105 | Converting stem `i` changes only its own two paths, and it sees stem `i` as demucs left it. |
| MainApp.StemRecorded | src/main.py:101-105 | Recording a converted stem extends the loop invariant to the next stem. |
| MainApp.LoopDone | src/main.py:97-105 | After the loop, the dictionary has a key for each stem demucs produced, mapped to its mp3 or to itself, and each value exists. Each stem is converted in place (`StemConvertedInPlace`). |
| MainApp.ConvertStem | src/main.py:102-105 | One pass converts stem `i` when it exists and changes only its wav and mp3. It raises exactly when ffmpeg is missing. Otherwise it records the mp3 when ffmpeg left something non-empty there, and the wav when not. The stem is then converted in place: its mp3 path holds what ffmpeg wrote, and its wav is deleted exactly when the mp3 is recorded. |
| MainApp.ConvertStems | src/main.py:97-105 | Only the stems and their mp3s change; the commands are one conversion per existing stem; the dictionary matches the stems, and every recorded path exists. Every stem is converted in place: a produced stem's mp3 path holds what ffmpeg wrote, and its wav is gone exactly when its mp3 is recorded. A stem demucs did not produce is untouched. It raises exactly when some existing stem's conversion finds no ffmpeg. |
| MainApp.MixOutsideStemArea | src/main.py:97-109 | `mixed_audio.mp3` is neither a stem nor a stem's mp3. |
| MainApp.MixKeepsConversions | src/main.py:107-126 | Writing the mix and deleting the mp3 keep every converted stem, and every recorded path other than the mp3. |
| MainApp.MixAndDelete | src/main.py:107-126 | The mix runs exactly when drums and bass were both produced, on the paths `convert_to_mp3` returned for them. It raises exactly when ffmpeg is missing there; its exit status is ignored. The mp3 is then deleted, and only the mix and the mp3 change. Unless the mix path is the mp3, it holds ffmpeg's output when drums and bass exist and ffmpeg wrote one, and is as it was otherwise. A raise changes nothing. |
| MainApp.ProcessDemucs | src/main.py:80-128 | demucs runs first. False exactly when it exits non-zero or leaves no folder. It raises exactly when demucs is missing, or, after a successful demucs run into an existing folder, ffmpeg is missing for a stem or for the mix. True in every other case, whatever the mix's exit status. True removes the input, gives the stem dictionary, runs one conversion per stem and then the mix exactly when drums and bass exist, and changes nothing but the stems, their mp3s, the mix and the input. Also on True, every stem is converted in place and every recorded path exists, apart from paths that coincide with the input. `mixed_audio.mp3` then holds ffmpeg's output for the mix when drums and bass exist and ffmpeg wrote one, and is as demucs left it otherwise (`Processed`). After demucs has run, a raise changes only the stems and their mp3s. |
| MainApp.MixNotSong | src/main.py:107-109 | The mix path is never the downloaded song, which sits directly under `src`. |
| MainApp.SeparateSong | src/main.py:153-156 | After a completed download: it raises exactly as `process_demucs` does, and reports success exactly when demucs exits with 0, the song's folder exists and nothing raises. Success leaves the state `Processed` describes. A missing demucs leaves the download as it was, a raise after demucs changes only the stems and their mp3s, and ending without a message leaves what demucs wrote. |
| MainApp.HandleSubmit | src/main.py:146-157 | URL, then name, are required. Nothing runs without a completed download. It raises exactly when a directory sits at the destination or `process_demucs` raises on the downloaded song. It finishes exactly when the download completes, demucs exits with 0, the song's folder exists and nothing raises. The mp3 is then gone, only the stems, their mp3s, the mix and the mp3 changed after demucs, and the stems are converted in place. `mixed_audio.mp3` holds ffmpeg's output for the mix when drums and bass exist and ffmpeg wrote one, and is as demucs left it otherwise. A raise at the destination changes nothing. Once demucs has run, a raise changes only the stems and their mp3s; a missing demucs leaves the completed download. Ending without a message changes only the destination, or, after a completed download, nothing but what demucs wrote. |
| StreamlitApp.DownloadAudio | src/streamlit.py:24-45 | The song goes to `src/<name>.mp3`. A directory there raises and changes nothing. The path comes back exactly when the download completes, and the file then holds the chunks. A failed request leaves no file there. Only that path changes. |
| StreamlitApp.TargetIsDemucsDirectory | src/streamlit.py:74 | `SEPARATED_DIR / music_name` is the folder demucs names after the mp3's stem exactly when the name is not empty. |
| StreamlitApp.CompressedElsewhere | src/streamlit.py:49 | The compressed copy never has the path of the file itself. |
| StreamlitApp.CompressAudio | src/streamlit.py:47-60 | The file is replaced by its compressed copy exactly when ffmpeg was found, the file could be deleted and a copy was made; otherwise it raises. A missing ffmpeg changes nothing. When the file was deleted but no copy was made, the file is lost. Only the file and its copy change. |
| StreamlitApp.CompressOkLocal | src/streamlit.py:47-60 | Whether and how `compress_audio` succeeds depends only on the file and its compressed path. |
| StreamlitApp.StemCompresses | src/streamlit.py:80-84 | Each stem's compressed copy is `<key>_compressed.wav` beside it. |
| StreamlitApp.StemPathsDiffer | src/streamlit.py:80-89 | Stems, compressed copies and `mixed_audio.wav` are pairwise distinct. |
| StreamlitApp.CompressStem | src/streamlit.py:82-84 | One pass compresses stem `i` when it exists and changes only its two paths. |
| StreamlitApp.InPlaceSurvives | src/streamlit.py:81-84 | A compressed stem stays compressed through changes to other paths. |
| StreamlitApp.StemUntouched | src/streamlit.py:81-84 | Until the loop reaches stem `i`, that stem and its copy are as demucs left them. |
| StreamlitApp.CompressStep | src/streamlit.py:81-84 | Compressing stem `i` extends the loop invariant to the next stem. |
| StreamlitApp.CompressFails | src/streamlit.py:81-84 | A stem that cannot be compressed means not every stem can be. |
| StreamlitApp.CompressStems | src/streamlit.py:79-84 | Only the stems and their copies change. The loop ends normally exactly when every existing stem can be compressed, and then each existing stem is compressed in place and each missing one is still missing. |
| StreamlitApp.MixKeepsStems | src/streamlit.py:95-111 | Writing the mix and deleting the mp3 leave the other compressed stems as they were. |
| StreamlitApp.MixDrumsAndBass | src/streamlit.py:86-111 | Without drums or bass, it gives `False` and runs nothing. Otherwise it raises exactly when ffmpeg is missing. The mix path comes back exactly when drums and bass exist and ffmpeg was found, whatever its exit status. The mp3 is then gone, and only the mix and the mp3 changed. Unless the mix path is the mp3, `mixed_audio.wav` then holds ffmpeg's output when ffmpeg wrote one, and is as it was otherwise. |
| StreamlitApp.ProcessDemucs | src/streamlit.py:62-111 | It raises exactly when demucs is missing, or when, after a successful demucs run into an existing folder, a stem cannot be compressed or ffmpeg is missing for the mix of drums and bass. The mix path comes back exactly when demucs exits with 0, the folder exists, every stem compresses, drums and bass exist and ffmpeg is found. `False` in every other case. When the mix path comes back, `mixed_audio.wav` holds ffmpeg's output when ffmpeg wrote one, and is as demucs left it otherwise. A failing demucs or a missing folder changes nothing more; missing drums or bass leave only the stems compressed. After demucs has run, a raise changes only the stems and their compressed copies. |
| StreamlitApp.HandleSubmit | src/streamlit.py:122-132 | Both fields are required. It raises exactly when a directory sits at the destination or `process_demucs` raises on the downloaded song. Success, naming the cleaned name, is reported exactly when the download completes and `process_demucs` returns the mix. The mp3 is then gone, only the stems, their copies, the mix and the mp3 changed after demucs, and the stems are compressed in place. `mixed_audio.wav` holds ffmpeg's output for the mix when ffmpeg wrote one, and is as demucs left it otherwise; with a non-empty name it is the file the gallery looks for (`MixShown`). A raise at the destination changes nothing. Once demucs has run, a raise changes only the stems and their copies; a missing demucs leaves the completed download. Ending without a message changes only the destination, or, after a completed download, only the stems and their copies besides what demucs wrote. |
| StreamlitApp.MixOutsideCompressArea | src/streamlit.py:80-89 | `mixed_audio.wav` is neither a stem nor a compressed copy. |
| StreamlitApp.MixShown | src/streamlit.py:144-147 | For a non-empty name, the folder is shown in the gallery exactly when the mix `process_demucs` writes for it exists. |
| StreamlitApp.WithMixMembers | src/streamlit.py:145-147 | The gallery shows exactly the folders with `mixed_audio.wav`, none more often than listed. |
| StreamlitApp.WithMixOrdered | src/streamlit.py:141-147 | Filtering a newest-first list keeps it newest first. |
| StreamlitApp.Gallery | src/streamlit.py:141-147 | The folders are sorted in place newest first (a permutation). The shown folders are exactly those with a mix, newest first. |
| ExtractorApp.Progress | src/scripts/app.py:48 | `min(downloaded / total, 1.0)` is at most 1, is 1 exactly when the total is reached, and is never negative. |
| ExtractorApp.Reports | src/scripts/app.py:44-48 | One progress report per chunk. |
| ExtractorApp.TotalLengthGrows | src/scripts/app.py:46 | The byte count never decreases from chunk to chunk. |
| ExtractorApp.ReportAt | src/scripts/app.py:44-48 | The report after chunk `i` is the bytes received up to it over the total. |
| ExtractorApp.ProgressGrows | src/scripts/app.py:48 | More bytes never show less progress. |
| ExtractorApp.ReportsBounded | src/scripts/app.py:47-48 | Every report lies between 0 and 1 and is 1 exactly when the bytes so far reach the total. |
| ExtractorApp.ReportsMonotone | src/scripts/app.py:44-48 | The progress bar only moves forward. |
| ExtractorApp.DownloadAudio | src/scripts/app.py:22-53 | Nothing is written when the service is unreachable, the length does not parse, it is between 0 and 10000, or the destination is a directory. Otherwise every chunk goes to `src/temp_audio.mp3`, one report per chunk when the total is positive, and the path comes back exactly when the stream completes. |
| ExtractorApp.SongOfDownload | src/scripts/app.py:126-127 | The download's stem is `temp_audio`, the folder demucs uses. |
| ExtractorApp.RunDemucs | src/scripts/app.py:55-71 | Success exactly when demucs exits with 0; a missing binary is failure. |
| ExtractorApp.MixApart | src/scripts/app.py:78-80 | The mix file differs from the stems it reads. |
| ExtractorApp.MixTracks | src/scripts/app.py:73-99 | Without drums or bass nothing runs and the result is `None`. Otherwise the mix path comes back exactly when ffmpeg exits with 0. A missing binary raises. |
| ExtractorApp.ClearPrevious | src/scripts/app.py:127-129 | An existing folder is removed with everything below it; a file there raises and changes nothing. |
| ExtractorApp.SeparateThenMix | src/scripts/app.py:131-155 | The commands and the final file system are fixed by the oracles. The status is `SeparationFailed` exactly when demucs does not exit with 0. It is `MixFailed` exactly when demucs succeeded and drums or bass are missing or ffmpeg exits non-zero. It raises exactly when ffmpeg is missing or reports success without writing the mix. Otherwise it is complete, with the mix file. |
| ExtractorApp.SeparateAndMix | src/scripts/app.py:126-155 | A file at the old folder raises before anything runs and changes nothing. Otherwise the old folder is removed and the stages end as in `SeparateThenMix`. On completion in a rooted tree, the drums and bass mixed are ones this demucs run produced. |
| ExtractorApp.FreshStems | src/scripts/app.py:126-131 | After clearing, any drums or bass under the song folder came from the demucs run. |
| ExtractorApp.HandleButton | src/scripts/app.py:108-161 | A URL is required. Download failure is reported exactly when the download does not complete, and then nothing runs. After a completed download, a file at the old folder raises. Otherwise separation failure, mix failure, an exception and completion each happen exactly as in `SeparateThenMix`, starting from the downloaded and cleared tree. demucs runs only after a completed download, the mix only after demucs exits with 0. Completion gives the existing mix file, made from stems of this run. |

## Left out

- The HTTP request, URL encoding, the API token and `raise_for_status` are outcomes of a `Fetch` value, not computed.
- Audio content: what demucs separates, what `amix` sums, codec quality. Tool runs are oracles that give an exit status and the files written.
- Streamlit rendering: widgets, spinners, messages, `st.rerun`, the audio players and download buttons (except the `open` of the extractor's mix, which can raise), the stem expander and the toggles of `src/main.py`.
- `isalnum` and `isdigit` over Unicode are a parameter `isAlnum`; `str.strip()` whitespace is Python's `isspace` set written out.
- Modification times are given integers, and the directory listing is a given sequence; the source's `iterdir` order is not modelled.
- The `is_dir()` filter of the session listing (src/main.py:166, src/streamlit.py:142) is not modelled: the sessions given to `Catalog` and `StreamlitApp.Gallery` are taken to be folders already.
- `Fs` does not require `files` and `dirs` to be disjoint; the operations that care test both, as the source's `exists`, `unlink` and `open` would.
- ExtractorApp.Progress: Python floats are modelled as exact reals, so rounding of `downloaded / total_size` is not captured.
- MainApp.HasContent: a directory is taken to have a positive `st_size`.
- StreamlitApp.CompressAudio: renaming a directory found at the compressed path is treated as raising.
- Directory creation (`mkdir` at start-up, `os.makedirs` for the CLI's output directory) is not modelled; directories are inputs.
- MixCli.CliMain: the file system is the set of paths that exist, so creating the output directory is not modelled.
- ExtractorApp.HandleButton: that the stems are fresh is proved for a rooted tree (every path below the top level sits in a directory) whose `src` exists, which the script's `mkdir` ensures.
- Path objects are component lists below the working directory; `Path.cwd()` and absolute paths are not modelled.
- cli.py, src/scripts/cli.py, src/scripts/download.py, src/mix_audio.py and build/lib/main.py are not part of this model.
- Concurrency between runs: the scripts have none.
- Catalog.SortByRecency: stability (equal modification times keep their listing order) is proved for the functional `ByRecency` only, not for the in-place sort.
