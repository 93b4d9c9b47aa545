# MKVAudioSubsDefaulter, modelled in Dafny

MKVAudioSubsDefaulter sets the default audio track and the default subtitle
track of Matroska (`.mkv`) files. The user gives a language code for the audio
and/or the subtitles, or `off` for subtitles. The program asks `mkvmerge -J`
which tracks each file has. For each requested type it scans that type's
tracks in order. When the code is not `off`, a default track whose language
differs from the code loses its default flag. The last track in the requested
language gets the default flag, unless it is already the last default track. A default track that
already has the requested language is not cleared, so a file can end up with
two default tracks of one type. Under `off`, the scan clears nothing; afterwards
at most one `flag-default=0` edit is staged, for the last default subtitle
track, and the lazy method skips it in some cases (see
`Resolver.SubtitlesOff`). A requested code that no track has does not leave
that type alone either: its non-matching default tracks are still cleared,
under lazy as under strict (`Samples.AbsentCodeStillClears`). The program then hands the edits to `mkvpropedit` as `--edit track:a<n>|s<n> --set flag-default=0|1`
fragments. Finally it prints a summary: a histogram of file extensions and six
counters (successful, estimated under dry run, unchanged, missing track,
invalid, failed).

The model covers two versions of the program:

- the current one, `MKVAudioSubsDefaulter/MKVAudioSubsDefaulter.py`: a class
  whose per-file pass `process_media_file_tracks` returns a tuple per file, and
  `change_default_tracks` folds those tuples;
- the v1.0.0 snapshot, `MKVAudioSubsDefaulter.py`: free functions. It has a
  gathering step `get_media_files_info` and one loop in `change_default_tracks`
  that keeps the histogram and the counters itself.

Modules:

- `Wrappers`: `Option` and `Result`. Raised exceptions become `Err`.
- `Text`: `str.lower` (ASCII), `str.endswith` (one suffix or a tuple),
  `os.path.splitext` for POSIX paths, and `line.split(":")[0]`.
- `Dict`: a Python dict as an association list with unique keys, in insertion
  order. An assignment to a present key keeps its position.
- `Languages`: `verify_language_code` (the same in both versions).
- `Tracks`: the inspector's track records, `extract_track_info`, and the loop
  that groups audio and subtitle tracks by id.
- `Resolver`: the scan over one type's tracks and the decision after it. This
  code is the same in both versions.
- `Samples`: two worked resolutions on one sample file.
- `Reconciler`: the current per-file pass.
- `Rerun`: one type's tracks with the first run's edits applied, and what a
  second run of the resolver stages on them: nothing for a language code,
  nothing for `off` with at most one default subtitle track, and another clear
  with two.
- `RerunFile`: the same for a whole file. When the first pass handed the file
  to the editor, the second pass over the edited tracks counts it `unchanged`.
- `Batch`: the current aggregation. `Pool.imap` becomes an in-order map; order
  independence is proved separately.
- `Gather`: the snapshot's `get_media_files_info`.
- `Legacy`: the snapshot's `change_default_tracks`.
- `LegacyFacts`: what the snapshot's loop promises, and how it compares with
  the current version.

Each loop of the source is a `method` proved equal to a recursive function
over the processed prefix: `ensures r == Spec(inputs)`. The properties are
then lemmas about those functions.

## Model

| member | source | states |
|---|---|---|
| Languages.VerifyLanguageCode | MKVAudioSubsDefaulter/MKVAudioSubsDefaulter.py:160-168 | Succeeds with `true` exactly when the code equals the text before the first colon of some line of the code list. Otherwise it raises the unknown-code error for that type and code. |
| Languages.CodeLineVerifies | MKVAudioSubsDefaulter.py:91-98 | A colon-free code that has a line `code:Name` in the list verifies, for audio and for subtitles. |
| Tracks.ExtractTrackInfo | MKVAudioSubsDefaulter/MKVAudioSubsDefaulter.py:171-182 | Language and default flag are copied from the properties. `text_subtitles` is `None` for any track that is not a subtitle track. |
| Tracks.BuildTrackTable | MKVAudioSubsDefaulter/MKVAudioSubsDefaulter.py:197-205 | The loop builds exactly the table that the track-by-track insertion `Group` describes. |
| Tracks.GroupUnique | MKVAudioSubsDefaulter/MKVAudioSubsDefaulter.py:201-203 | Each type's table holds every id once. |
| Tracks.GroupKeys | MKVAudioSubsDefaulter/MKVAudioSubsDefaulter.py:201-203 | An id is in a type's table exactly when some track of that type carries it. Tracks of other types are dropped. |
| Tracks.GroupLastWins | MKVAudioSubsDefaulter/MKVAudioSubsDefaulter.py:202-203 | The record stored under an id is extracted from the last track of that type with that id. |
| Tracks.GroupKeepsOrder | MKVAudioSubsDefaulter/MKVAudioSubsDefaulter.py:201-203 | Reading more tracks only extends the key order. Ids keep the position where they first appeared. |
| Resolver.Scan | MKVAudioSubsDefaulter/MKVAudioSubsDefaulter.py:292-317 | The scan keeps its invariant: audio never holds the `off` sentinel; the sentinel as current default with code `off` forces a chosen default; a chosen `off` implies a current default. This is what makes the later arithmetic on track numbers well defined. |
| Resolver.Settle | MKVAudioSubsDefaulter/MKVAudioSubsDefaulter.py:319-384 | At most one edit is staged after the scan. A missing type happens only under strict, with no edit and nothing chosen. That edit either clears the current default (flag 0) or sets the chosen track (flag 1). |
| Resolver.ResolveTrackType | MKVAudioSubsDefaulter/MKVAudioSubsDefaulter.py:285-384 | The per-type loop and the decision after it compute exactly `ResolveType`: the scan's edits followed by the settled edit, and the missing flag. |
| Resolver.LastMatch | MKVAudioSubsDefaulter/MKVAudioSubsDefaulter.py:313-314 | The result is the position of a track with the code, and no later track has it; -1 when none does. |
| Resolver.LastDefault | MKVAudioSubsDefaulter/MKVAudioSubsDefaulter.py:293-294 | The result is the position of a default track, and no later track is default; -1 when none is. |
| Resolver.ScanFindsLast | MKVAudioSubsDefaulter/MKVAudioSubsDefaulter.py:292-317 | After the scan, the current default is the last default track. With no default track it is the `off` sentinel for a non-empty subtitle table, else `None`. For a real code the new default is the last track with that language, or `None`. |
| Resolver.ScanOffChoice | MKVAudioSubsDefaulter/MKVAudioSubsDefaulter.py:310-317 | With code `off` and no track labelled `off`, the sentinel is chosen exactly when the first subtitle track is not a default track. |
| Resolver.ScanClears | MKVAudioSubsDefaulter/MKVAudioSubsDefaulter.py:293-308 | Both directions: the scan stages `flag-default=0` for every default track whose language is not the code, and it stages nothing else. With code `off` it stages none. |
| Resolver.ScanNoClears | MKVAudioSubsDefaulter/MKVAudioSubsDefaulter.py:293-308 | With no default track to clear, the scan stages no edit. |
| Resolver.ResolveClears | MKVAudioSubsDefaulter/MKVAudioSubsDefaulter.py:292-384 | Under either policy, every non-matching default track of the type is cleared. Every edit of the type except the last clears such a track. |
| Resolver.EditsAddressTracks | MKVAudioSubsDefaulter/MKVAudioSubsDefaulter.py:297-384 | Each edit names `a<id>` for an audio track, or `s<id - number of audio tracks>` for a subtitle track, for the id of a track of that type. |
| Resolver.MissingIffNoMatch | MKVAudioSubsDefaulter/MKVAudioSubsDefaulter.py:329-336 | For a real code, a type is missing exactly under strict when no track of the type has that language. |
| Resolver.NewDefaultIsLastMatch | MKVAudioSubsDefaulter/MKVAudioSubsDefaulter.py:313-384 | All edits but the last are `flag-default=0`. When the last track with the code is not the current default, the last edit sets `flag-default=1` on it. Otherwise every edit of the type is `flag-default=0`. |
| Resolver.AlreadySatisfied | MKVAudioSubsDefaulter/MKVAudioSubsDefaulter.py:357-360 | Nothing is staged and nothing is missing, under any policy, when every default track has the code and the last track with the code is a default. |
| Resolver.SubtitlesOff | MKVAudioSubsDefaulter/MKVAudioSubsDefaulter.py:310-351 | Subtitles `off` is never missing. With no default subtitle track nothing is staged. Otherwise the last default subtitle track gets the single `flag-default=0` edit, except under lazy when the first subtitle track is itself a default. |
| Samples.AbsentCodeStillClears | MKVAudioSubsDefaulter/MKVAudioSubsDefaulter.py:292-358 | On audio `eng` (default) and `jpn`, the absent code `fra` stages exactly the clear `a0` `flag-default=0`; under strict the type is also missing, under lazy it is not. |
| Samples.SampleSubtitles | MKVAudioSubsDefaulter/MKVAudioSubsDefaulter.py:292-384 | On subtitles `eng` (id 2) and `jpn` (id 3, default) after two audio tracks, `eng` stages exactly: clear `s1`, then set `s0`, under either policy. |
| Reconciler.ResolveRequests | MKVAudioSubsDefaulter/MKVAudioSubsDefaulter.py:281-287 | At most one miss per request. Under lazy there are none. |
| Reconciler.StageEdits | MKVAudioSubsDefaulter/MKVAudioSubsDefaulter.py:278-384 | The request loop (audio, then subtitles) computes exactly `ResolveRequests`: the staged edits in order and the number of missing types (`no_changes` is set exactly when that number is positive), or the first unknown-code error. |
| Reconciler.ProcessMediaFileTracks | MKVAudioSubsDefaulter/MKVAudioSubsDefaulter.py:255-443 | The per-file pass returns exactly `ProcessFile`: the extension, the six counters and the editor call, or the error of an unknown code. |
| Reconciler.ResolveBoth | MKVAudioSubsDefaulter/MKVAudioSubsDefaulter.py:281-384 | With both codes known, the command is the audio edits followed by the subtitle edits, with one miss per missing type. |
| Reconciler.StrictAllOrNothing | MKVAudioSubsDefaulter/MKVAudioSubsDefaulter.py:329-430 | Under strict, a missing type makes the file count only as missing (once per missing type). The editor is not called, even when the other type could be changed. |
| Reconciler.LazyNeverBlocks | MKVAudioSubsDefaulter/MKVAudioSubsDefaulter.py:352-426 | Under lazy nothing is missing. All staged edits of both types, including clears for a type with no matching track, go to the editor as one command. With no edits the file is unchanged, and under dry run it is estimated. |
| Reconciler.AlreadyDefaultUnchanged | MKVAudioSubsDefaulter/MKVAudioSubsDefaulter.py:357-433 | When both requested types are already satisfied, the file counts only as unchanged and the editor is not called. |
| Reconciler.Classification | MKVAudioSubsDefaulter/MKVAudioSubsDefaulter.py:272-443 | Per file: the histogram entry is the lower-cased extension with count 1; invalid holds exactly for a non-`.mkv` path; exactly one outcome is counted (missing counts 1 or 2). The editor is called exactly for success and failure, never under dry run, and always with a non-empty command. The file fails exactly when the exit code is non-zero. |
| Reconciler.UnknownCodeRaises | MKVAudioSubsDefaulter/MKVAudioSubsDefaulter.py:274-287 | A non-`.mkv` path never raises. For a `.mkv` path the audio code is checked first, then the subtitle code, and the first unknown (lower-cased) code is raised. With both known there is no error. |
| Reconciler.CommandAddressesTracks | MKVAudioSubsDefaulter/MKVAudioSubsDefaulter.py:292-396 | Every `a` edit of the command names an audio track id. Every `s` edit names a subtitle track id minus the number of audio tracks. |
| Rerun.EditedFacts | MKVAudioSubsDefaulter/MKVAudioSubsDefaulter.py:393-396 | After the editor runs the fragments in order, a track that no fragment addresses keeps its record. A track that fragments address, all with flag `f`, ends with default `f == 1`. |
| Rerun.TrackAfter | MKVAudioSubsDefaulter/MKVAudioSubsDefaulter.py:292-384 | For a language code, after the first run's edits: every non-matching default track is no longer a default, the last match (when it was not the last default) is one, and every other track is unchanged. |
| Rerun.Idempotent | MKVAudioSubsDefaulter/MKVAudioSubsDefaulter.py:292-384 | For a language code, under either policy, a second run of the resolver for one type, on that type's tracks with the first run's edits applied, stages no edit. |
| Rerun.OffIdempotent | MKVAudioSubsDefaulter/MKVAudioSubsDefaulter.py:310-351 | For `off`, with at most one default subtitle track and no track labelled `off`, a second run stages no edit either. |
| RerunFile.CommandByType | MKVAudioSubsDefaulter/MKVAudioSubsDefaulter.py:386-396 | The editor running the file's whole command (audio fragments, then subtitle fragments) leaves the same tracks as applying the audio edits and then the subtitle edits. |
| RerunFile.MissingKept | MKVAudioSubsDefaulter/MKVAudioSubsDefaulter.py:312-336 | For a language code, the edits keep every track's language, so whether the type is missing is the same before and after them. |
| RerunFile.TypeRerun | MKVAudioSubsDefaulter/MKVAudioSubsDefaulter.py:292-384 | For one requested type that is not missing (a language code, or `off` with at most one default subtitle and none labelled `off`), the second pass on the edited tracks stages nothing and still finds the type. |
| RerunFile.SecondPass | MKVAudioSubsDefaulter/MKVAudioSubsDefaulter.py:281-384 | With both codes known and neither type missing, the request loop over the tracks after the whole command returns no edit and no miss. |
| RerunFile.FileIdempotent | MKVAudioSubsDefaulter/MKVAudioSubsDefaulter.py:255-443 | When the first pass of a file handed a command to the editor, the second pass over the tracks that command leaves counts the file `unchanged` and calls no editor, whatever the editor's exit code. |
| Rerun.OffTwoDefaultsRestage | MKVAudioSubsDefaulter/MKVAudioSubsDefaulter.py:310-351 | For `off` with two default subtitle tracks, the runs are not idempotent: the first run clears `s1`, and the second, on the edited tracks, clears `s0`. |
| Batch.BumpExtension | MKVAudioSubsDefaulter/MKVAudioSubsDefaulter.py:462-464 | Creating the entry at 0 when it is absent and then adding `n` is the same as storing `get(ext, 0) + n`. |
| Batch.ProcessAll | MKVAudioSubsDefaulter/MKVAudioSubsDefaulter.py:455-461 | Running every file through the per-file pass in order gives exactly `Results`; the first unknown code raises. |
| Batch.Tabulate | MKVAudioSubsDefaulter/MKVAudioSubsDefaulter.py:455-471 | The fold over the tuples computes exactly `Aggregate`: the histogram fold and the six sums. |
| Batch.ChangeDefaultTracks | MKVAudioSubsDefaulter/MKVAudioSubsDefaulter.py:445-471 | `change_default_tracks` up to its printed summary computes exactly `Run`. |
| Batch.HistogramTally | MKVAudioSubsDefaulter/MKVAudioSubsDefaulter.py:462-464 | The histogram holds each extension once. It has an entry exactly for the extensions that occur, and each value is the sum of that extension's per-file counts. |
| Batch.AggregateOrderFree | MKVAudioSubsDefaulter/MKVAudioSubsDefaulter.py:455-471 | Any permutation of the per-file tuples gives the same totals, the same set of histogram keys and the same count per key. So the order in which `imap` delivers the results does not change the totals or the counts; it can change the order of the histogram's keys. |
| Batch.ResultsTidy | MKVAudioSubsDefaulter/MKVAudioSubsDefaulter.py:435-443 | In a completed batch, every tuple has count 1, invalid exactly for a non-`.mkv` path, one or two outcomes, and the dry-run split. |
| Batch.HistogramSum | MKVAudioSubsDefaulter/MKVAudioSubsDefaulter.py:462-464 | With count 1 per file, the histogram values add up to the number of files. |
| Batch.BatchSummary | MKVAudioSubsDefaulter/MKVAudioSubsDefaulter.py:445-471 | The histogram adds up to the number of files. The invalid total is the number of non-`.mkv` paths. The total outcomes lie between one and two per file. Under dry run there are no successes or failures; otherwise there are no estimates. |
| Gather.GetMediaFilesInfo | MKVAudioSubsDefaulter.py:101-163 | The gathering loop computes exactly `MediaInfo` over the filtered paths: each kept path maps to the table grouped from its tracks, and the first failed inspection raises its error output. |
| Gather.FilterCount | MKVAudioSubsDefaulter.py:135-137 | A candidate is kept as many times as it occurs when it ends with one of the suffixes, and never otherwise. |
| Gather.FilterMember | MKVAudioSubsDefaulter.py:135-137 | A path is kept exactly when it is a candidate that ends with one of the suffixes. |
| Gather.FilterAppend | MKVAudioSubsDefaulter.py:135-137 | The filter keeps order: it distributes over concatenation. |
| Gather.MediaInfoRaises | MKVAudioSubsDefaulter.py:139-161 | Gathering succeeds exactly when every path's inspection succeeds. Otherwise its error is that of the first failing path. |
| Gather.MediaInfoEntries | MKVAudioSubsDefaulter.py:151-159 | A completed gathering holds each inspected path once. Each path maps to the table grouped from its own tracks, and no other key is present. |
| Gather.GatheredPaths | MKVAudioSubsDefaulter.py:101-163 | The gathered keys are exactly the candidates that end with one of the suffixes. |
| Gather.AsWrittenDefaultKeepsWebm | MKVAudioSubsDefaulter.py:104 | The default as written, `tuple(".mkv")`, lets `clip.webm` through, while `(".mkv",)` drops it. |
| Gather.DefaultKeepsMkvOnly | MKVAudioSubsDefaulter.py:104 | With the intended default `(".mkv",)`, a path is kept exactly when it ends with `.mkv`, as often as it occurs. |
| Legacy.LegacyRunRaises | MKVAudioSubsDefaulter.py:184-212 | A raise while processing file `i` ends the whole run with that error. |
| Legacy.LegacyFileBody | MKVAudioSubsDefaulter.py:196-351 | The loop body after the histogram update computes exactly `TallyStep`. |
| Legacy.LegacyChangeDefaultTracks | MKVAudioSubsDefaulter.py:167-351 | The snapshot's loop computes exactly `LegacyRun`: the histogram of every path (bumped before the `.mkv` check), the six counters and the editor calls in order, or the first unknown-code error. |
| LegacyFacts.LegacyFileShape | MKVAudioSubsDefaulter.py:196-351 | A file bumps exactly one counter, and invalid exactly for a non-`.mkv` path. The editor is called exactly for success and failure, never under dry run, and always with a non-empty command. The file fails exactly when the exit code is non-zero. |
| LegacyFacts.MismatchOncePerFile | MKVAudioSubsDefaulter.py:262-348 | A `.mkv` file missing one or both types (strict only) adds exactly 1 to `pattern_mismatch_count` and makes no call. The current version counts each missing type instead. |
| LegacyFacts.LegacyTallyFacts | MKVAudioSubsDefaulter.py:184-351 | Over a run: one counter per file; invalid equals the number of non-`.mkv` paths; one editor call per success or failure; a dry run makes no call. |
| LegacyFacts.ExtHistogramCounts | MKVAudioSubsDefaulter.py:190-194 | The extension histogram holds each extension once, with its number of occurrences; its values add up to the number of paths. |
| LegacyFacts.LegacyHistogram | MKVAudioSubsDefaulter.py:184-194 | After a run, every path's lower-cased extension (`.mkv` or not) is counted once. |
| LegacyFacts.VerdictAgrees | MKVAudioSubsDefaulter.py:317-351 | The snapshot's classification of a staged file and the current one make the same editor call and the same counters. The only difference: one pattern mismatch stands for one or two missing types. |
| LegacyFacts.LegacyFileAgrees | MKVAudioSubsDefaulter.py:196-351 | Per file, the snapshot and the current pass raise the same error or agree as above. |
| LegacyFacts.HistogramOfExtensions | MKVAudioSubsDefaulter.py:190-194 | Folding tuples that each carry count 1 gives the histogram of their extensions. |
| LegacyFacts.TallyAgrees | MKVAudioSubsDefaulter.py:184-351 | Over a list of files, the two versions raise together, with the same error, or have agreeing counters. |
| LegacyFacts.LegacyAgreesWithCurrent | MKVAudioSubsDefaulter.py:167-351 | The two versions of `change_default_tracks` raise exactly together, with the same error. Otherwise they build the same extension histogram and the same counters, except pattern mismatches versus missing types. |
| Dict.GetNone | MKVAudioSubsDefaulter/MKVAudioSubsDefaulter.py:462-463 | `d.get(k)` is `None` exactly when `k` is not a key. |
| Dict.PutGet | MKVAudioSubsDefaulter/MKVAudioSubsDefaulter.py:203 | After `d[k] = v`, `d.get(k)` is `v`. |
| Dict.PutGetOther | MKVAudioSubsDefaulter/MKVAudioSubsDefaulter.py:203 | `d[k] = v` leaves every other key's value unchanged. |
| Dict.PutKeys | MKVAudioSubsDefaulter/MKVAudioSubsDefaulter.py:203 | `d[k] = v` keeps the key order when `k` is present, and appends `k` otherwise. |
| Dict.PutPut | MKVAudioSubsDefaulter/MKVAudioSubsDefaulter.py:203 | Assigning a key twice leaves the same dict as assigning the second value once. |
| Dict.PutValueSum | MKVAudioSubsDefaulter/MKVAudioSubsDefaulter.py:464 | `d[k] = v` changes the sum of the values by `v` minus the old value of `k` (0 when absent). |
| Dict.InsertThenAdd | MKVAudioSubsDefaulter/MKVAudioSubsDefaulter.py:462-464 | `if k not in d: d[k] = 0` followed by `d[k] += n` leaves `k` present with `d.get(k, 0) + n`. |

## Left out

- Running `mkvmerge -J` and `mkvpropedit`, decoding their JSON, and the `shell=True`/`Popen` vs `subprocess.run(check=True)` split per platform. The inspector's result per path (`Gather.Inspector`) and the editor's exit code per path (`editorExit`) are inputs. On Linux, `check=True` raises on a non-zero exit, so a `failed` count is only reachable through the Windows branch; the model treats a non-zero exit as `failed`, as that branch does.
- Reading the language-code file (`get_language_codes`): its lines are a parameter (`codeLines`).
- Listing the directories (`os.walk`, `os.path.isdir`, `list_directories` with its depth), and the current version's `get_media_files_info`. The gathering step starts from the candidate path list.
- The worker pool (`Pool.imap`) and `tqdm`: the per-file passes are an in-order map. `Batch.AggregateOrderFree` shows that arrival order gives the same totals and counts (the histogram's key order may differ).
- Logging, the printed summary and its ordering, `set_log_level`, argument parsing and `main`.
- The editor and inspector locations (`mkvpropedit_location`, `mkvmerge_location`), which only shape the command line.
- The editor's file argument: line 395 (line 324 in the snapshot) hands the editor `os.path.join(os.path.dirname(__file__), media_file)`. For a relative `media_file`, that is a file under the module's directory, not the file the inspector read. The model keys the editor's exit code (`editorExit`) by the inspected path, and `Rerun` applies the edits to the inspected file's tracks.
- Rerun.AfterEdits: the editor's effect is taken to be what its command states, with each fragment setting the flag of the track whose number the program computed (the id for audio, the id minus the number of audio tracks for subtitles). How `mkvpropedit` itself maps `track:<letter><n>` onto a file's tracks is not part of this model.
- RerunFile.FileIdempotent: covers files whose first pass called the editor, with unique track ids per type, and no audio code `off`. For subtitle `off` it also needs at most one default subtitle track and none labelled `off`. With two default subtitles the second pass stages another clear (`Rerun.OffTwoDefaultsRestage`). Under strict, audio `off` clears the single default audio track, and a second pass then reports audio missing. Files counted missing, unchanged, invalid or estimated on the first pass had no command run on them.
- Text.Ext: models `os.path.splitext` for POSIX paths only (`/` is the only separator). On Windows, `ntpath.splitext` splits at `\` as well as `/`, so a backslash path with a dotted directory name gets a different extension there. The editor's exit code, by contrast, follows the Windows branch (see the first line).
- `str.lower` is modelled for ASCII letters only. Unicode case mapping is not modelled.
- `name`, `enabled` and `forced` are carried in the track record but never read by the core.
- `default_method` is `Strict` or `Lazy`. Any other string takes the lazy path in the source, minus a warning.
- The snapshot's loop body is a separate method (`Legacy.LegacyFileBody`); its `continue` is its early return.
- Gather.FilterMediaPaths: only its length bound is in its own contract; what it keeps is stated by `Gather.FilterCount`, `Gather.FilterMember` and `Gather.FilterAppend`.

## Findings

| source | as written | input that shows it | evidently intended | confidence | as-written member | corrected member |
|---|---|---|---|---|---|---|
| MKVAudioSubsDefaulter.py:104 | The default `media_file_types = tuple(".mkv")` is the tuple of characters `(".", "m", "k", "v")`, so the filter keeps every path ending in `.`, `m`, `k` or `v`. | `clip.webm` with the default suffixes is kept. | `(".mkv",)`, as the command line passes and as the current version's default `tuple([".mkv"])` (MKVAudioSubsDefaulter/MKVAudioSubsDefaulter.py:66) reads. | not executed; the snapshot's own command line always passes the suffixes, so only other callers reach the default | Gather.AsWrittenDefaultKeepsWebm | Gather.DefaultKeepsMkvOnly |
