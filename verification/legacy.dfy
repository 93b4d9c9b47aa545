/**
 * The v1.0.0 snapshot `MKVAudioSubsDefaulter.py`: `change_default_tracks`,
 * one loop over the files that keeps the histogram and six counters itself
 * (its gathering step is module Gather). Its resolver is the one in module
 * Resolver; what differs is the bookkeeping around it.
 */
module Legacy {
  import opened Wrappers
  import opened Dict
  import opened Text
  import opened Languages
  import opened Tracks
  import opened Resolver
  import opened Reconciler
  import opened Batch

  /** The six counters of the snapshot; a file missing a type counts once, as a pattern mismatch. */
  datatype LegacyCounts = LegacyCounts(successful: int, estimated: int, untouched: int, patternMismatch: int, invalid: int, failed: int)

  /** What the run leaves: the histogram, the counters and every editor call made, in order. */
  datatype LegacyOutcome = LegacyOutcome(fileTypes: Dict<string, int>, counts: LegacyCounts, calls: seq<(string, seq<Edit>)>)

  /** What one file contributes: which counter it bumps and the edits handed to the editor, if it was called. */
  datatype FileVerdict = FileVerdict(counts: LegacyCounts, call: Option<seq<Edit>>)

  function AddLegacy(a: LegacyCounts, b: LegacyCounts): LegacyCounts
  {
    LegacyCounts(a.successful + b.successful, a.estimated + b.estimated, a.untouched + b.untouched,
                 a.patternMismatch + b.patternMismatch, a.invalid + b.invalid, a.failed + b.failed)
  }

  /** How a staged `.mkv` file is counted, and whether the editor is called with its edits. */
  function LegacyVerdict(res: Resolution, dryRun: bool, exitCode: int): FileVerdict
  {
    if |res.edits| > 0 && res.missCount == 0 then
      if dryRun then FileVerdict(LegacyCounts(0, 1, 0, 0, 0, 0), None)
      else if exitCode != 0 then FileVerdict(LegacyCounts(0, 0, 0, 0, 0, 1), Some(res.edits))
      else FileVerdict(LegacyCounts(1, 0, 0, 0, 0, 0), Some(res.edits))
    else if res.missCount > 0 then FileVerdict(LegacyCounts(0, 0, 0, 1, 0, 0), None)
    else FileVerdict(LegacyCounts(0, 0, 1, 0, 0, 0), None)
  }

  /** The classification of a `.mkv` file from what the request loop produced; an unknown code raises. */
  function LegacyStaged(staged: Result<Resolution, CodeError>, dryRun: bool, exitCode: int): Result<FileVerdict, CodeError>
  {
    match staged
    case Err(e) => Err(e)
    case Ok(res) => Ok(LegacyVerdict(res, dryRun, exitCode))
  }

  /** The per-file part of the loop body after the histogram update. */
  function LegacyFile(path: string, table: TrackTable, config: Config, codeLines: seq<string>, exitCode: int)
    : Result<FileVerdict, CodeError>
  {
    if !IsMkv(path) then Ok(FileVerdict(LegacyCounts(0, 0, 0, 0, 1, 0), None))
    else LegacyStaged(ResolveRequests(table, Requests(config), config.policy, codeLines), config.dryRun, exitCode)
  }

  /** The lower-cased extension of each path of `files`, in order. */
  function Extensions(files: seq<(string, TrackTable)>): (exts: seq<string>)
    ensures |exts| == |files| && forall i :: 0 <= i < |files| ==> exts[i] == Ext(Lower(files[i].0))
  {
    seq(|files|, i requires 0 <= i < |files| => Ext(Lower(files[i].0)))
  }

  /** The histogram after bumping each of `exts` in turn. */
  function ExtHistogram(exts: seq<string>): Dict<string, int>
  {
    if exts == [] then []
    else
      var h := ExtHistogram(exts[..|exts| - 1]);
      var ext := exts[|exts| - 1];
      Put(h, ext, GetOr(h, ext, 0) + 1)
  }

  /** The counters and editor calls so far. */
  datatype Tally = Tally(counts: LegacyCounts, calls: seq<(string, seq<Edit>)>)

  /** `calls` after a file whose editor call, if any, was `call`. */
  function CallsAfter(calls: seq<(string, seq<Edit>)>, path: string, call: Option<seq<Edit>>): seq<(string, seq<Edit>)>
  {
    if call.Some? then calls + [(path, call.value)] else calls
  }

  /** The rest of one pass of the loop body, after the histogram update. */
  function TallyStep(t: Tally, path: string, table: TrackTable, config: Config, codeLines: seq<string>, exitCode: int)
    : Result<Tally, CodeError>
  {
    match LegacyFile(path, table, config, codeLines, exitCode)
    case Err(e) => Err(e)
    case Ok(v) => Ok(Tally(AddLegacy(t.counts, v.counts), CallsAfter(t.calls, path, v.call)))
  }

  /** The counters and calls after `files`; the first unknown language code raises. */
  function LegacyTally(files: seq<(string, TrackTable)>, config: Config, codeLines: seq<string>, editorExit: string -> int)
    : Result<Tally, CodeError>
  {
    if files == [] then Ok(Tally(LegacyCounts(0, 0, 0, 0, 0, 0), []))
    else
      var n := |files| - 1;
      match LegacyTally(files[..n], config, codeLines, editorExit)
      case Err(e) => Err(e)
      case Ok(t) => TallyStep(t, files[n].0, files[n].1, config, codeLines, editorExit(files[n].0))
  }

  /** The whole loop: the histogram of every path, the counters and the calls, unless a code raised. */
  function LegacyRun(files: seq<(string, TrackTable)>, config: Config, codeLines: seq<string>, editorExit: string -> int)
    : Result<LegacyOutcome, CodeError>
  {
    match LegacyTally(files, config, codeLines, editorExit)
    case Err(e) => Err(e)
    case Ok(t) => Ok(LegacyOutcome(ExtHistogram(Extensions(files)), t.counts, t.calls))
  }

  lemma ExtHistogramStep(exts: seq<string>, i: nat, ext: string, before: Dict<string, int>, after: Dict<string, int>)
    requires i < |exts| && ext == exts[i] && before == ExtHistogram(exts[..i])
    requires after == Put(before, ext, GetOr(before, ext, 0) + 1)
    ensures after == ExtHistogram(exts[..i + 1])
  {
    assert exts[..i + 1][..i] == exts[..i];
  }

  lemma LegacyTallyStep(files: seq<(string, TrackTable)>, i: nat, config: Config, codeLines: seq<string>, editorExit: string -> int,
                        before: Tally, after: Tally)
    requires i < |files| && LegacyTally(files[..i], config, codeLines, editorExit) == Ok(before)
    requires TallyStep(before, files[i].0, files[i].1, config, codeLines, editorExit(files[i].0)) == Ok(after)
    ensures LegacyTally(files[..i + 1], config, codeLines, editorExit) == Ok(after)
  {
    assert files[..i + 1][..i] == files[..i];
  }

  /** The loop body on a path that does not end in `.mkv`: only the invalid counter moves. */
  lemma TallyStepInvalid(t: Tally, path: string, table: TrackTable, config: Config, codeLines: seq<string>, exitCode: int,
                         after: Tally)
    requires !IsMkv(path) && after == Tally(t.counts.(invalid := t.counts.invalid + 1), t.calls)
    ensures TallyStep(t, path, table, config, codeLines, exitCode) == Ok(after)
  {
  }

  /** The loop body on a `.mkv` file whose requests resolved to `res`. */
  lemma TallyStepStaged(t: Tally, path: string, table: TrackTable, config: Config, codeLines: seq<string>,
                        exitCode: int, res: Resolution, after: Tally)
    requires IsMkv(path) && ResolveRequests(table, Requests(config), config.policy, codeLines) == Ok(res)
    requires after.counts == AddLegacy(t.counts, LegacyVerdict(res, config.dryRun, exitCode).counts)
    requires after.calls == CallsAfter(t.calls, path, LegacyVerdict(res, config.dryRun, exitCode).call)
    ensures TallyStep(t, path, table, config, codeLines, exitCode) == Ok(after)
  {
    assert LegacyFile(path, table, config, codeLines, exitCode) == Ok(LegacyVerdict(res, config.dryRun, exitCode));
  }

  /** The loop body on a `.mkv` file whose requests raised. */
  lemma TallyStepRaises(t: Tally, path: string, table: TrackTable, config: Config, codeLines: seq<string>, exitCode: int,
                        e: CodeError)
    requires IsMkv(path) && ResolveRequests(table, Requests(config), config.policy, codeLines) == Err(e)
    ensures TallyStep(t, path, table, config, codeLines, exitCode) == Err(e)
  {
  }

  lemma LegacyTallyErr(files: seq<(string, TrackTable)>, k: nat, config: Config, codeLines: seq<string>, editorExit: string -> int)
    requires k <= |files| && LegacyTally(files[..k], config, codeLines, editorExit).Err?
    ensures LegacyTally(files, config, codeLines, editorExit) == LegacyTally(files[..k], config, codeLines, editorExit)
  {
    if k < |files| {
      var n := |files| - 1;
      assert files[..n][..k] == files[..k];
      LegacyTallyErr(files[..n], k, config, codeLines, editorExit);
    } else {
      assert files[..k] == files;
    }
  }

  /** A raise in the body for file `i` ends the whole run with that error. */
  lemma LegacyRunRaises(files: seq<(string, TrackTable)>, i: nat, config: Config, codeLines: seq<string>, editorExit: string -> int,
                        t: Tally, e: CodeError)
    requires i < |files| && LegacyTally(files[..i], config, codeLines, editorExit) == Ok(t)
    requires TallyStep(t, files[i].0, files[i].1, config, codeLines, editorExit(files[i].0)) == Err(e)
    ensures LegacyRun(files, config, codeLines, editorExit) == Err(e)
  {
    assert files[..i + 1][..i] == files[..i];
    LegacyTallyErr(files, i + 1, config, codeLines, editorExit);
  }

  lemma LegacyRunDone(files: seq<(string, TrackTable)>, config: Config, codeLines: seq<string>, editorExit: string -> int,
                      t: Tally, h: Dict<string, int>)
    requires LegacyTally(files, config, codeLines, editorExit) == Ok(t) && h == ExtHistogram(Extensions(files))
    ensures LegacyRun(files, config, codeLines, editorExit) == Ok(LegacyOutcome(h, t.counts, t.calls))
  {
  }

  /**
   * One pass of the loop body after the histogram update: a path that does not
   * end in `.mkv` only bumps the invalid counter (the `continue`); otherwise the
   * requests are staged and the file bumps exactly one counter, and the editor
   * is called with the staged edits unless it is a dry run.
   */
  method LegacyFileBody(path: string, table: TrackTable, config: Config, codeLines: seq<string>, exitCode: int, t: Tally)
    returns (r: Result<Tally, CodeError>)
    ensures r == TallyStep(t, path, table, config, codeLines, exitCode)
  {
    var counts, calls := t.counts, t.calls;
    if !EndsWith(Lower(path), MKV) {
      counts := counts.(invalid := counts.invalid + 1);
      TallyStepInvalid(t, path, table, config, codeLines, exitCode, Tally(counts, calls));
      return Ok(Tally(counts, calls));
    }
    var staged := StageEdits(table, config, codeLines);
    if staged.Err? {
      TallyStepRaises(t, path, table, config, codeLines, exitCode, staged.error);
      return Err(staged.error);
    }
    var cmds := staged.value.edits;
    var noChanges := staged.value.missCount > 0;
    if |cmds| > 0 && !noChanges {
      if !config.dryRun {
        calls := calls + [(path, cmds)];
        if exitCode != 0 {
          counts := counts.(failed := counts.failed + 1);
        } else {
          counts := counts.(successful := counts.successful + 1);
        }
      } else {
        counts := counts.(estimated := counts.estimated + 1);
      }
    } else if noChanges {
      counts := counts.(patternMismatch := counts.patternMismatch + 1);
    } else {
      counts := counts.(untouched := counts.untouched + 1);
    }
    TallyStepStaged(t, path, table, config, codeLines, exitCode, staged.value, Tally(counts, calls));
    r := Ok(Tally(counts, calls));
  }

  /** What the loop still does from file `i` on, given the histogram and the tally so far. */
  function RunFrom(files: seq<(string, TrackTable)>, config: Config, codeLines: seq<string>, editorExit: string -> int,
                   i: nat, h: Dict<string, int>, t: Tally): Result<LegacyOutcome, CodeError>
    requires i <= |files|
    decreases |files| - i
  {
    if i == |files| then Ok(LegacyOutcome(h, t.counts, t.calls))
    else
      var ext := Ext(Lower(files[i].0));
      match TallyStep(t, files[i].0, files[i].1, config, codeLines, editorExit(files[i].0))
      case Err(e) => Err(e)
      case Ok(next) => RunFrom(files, config, codeLines, editorExit, i + 1, Put(h, ext, GetOr(h, ext, 0) + 1), next)
  }

  lemma RunFromDone(files: seq<(string, TrackTable)>, config: Config, codeLines: seq<string>,
                    editorExit: string -> int, i: nat, h: Dict<string, int>, t: Tally)
    requires i == |files| && h == ExtHistogram(Extensions(files)[..i])
    requires LegacyTally(files[..i], config, codeLines, editorExit) == Ok(t)
    ensures RunFrom(files, config, codeLines, editorExit, i, h, t) == LegacyRun(files, config, codeLines, editorExit)
  {
    assert files[..i] == files;
    assert Extensions(files)[..i] == Extensions(files);
    LegacyRunDone(files, config, codeLines, editorExit, t, h);
  }

  lemma ExtensionsAt(files: seq<(string, TrackTable)>, i: nat, h: Dict<string, int>, ext: string)
    requires i < |files| && h == ExtHistogram(Extensions(files)[..i]) && ext == Ext(Lower(files[i].0))
    ensures Put(h, ext, GetOr(h, ext, 0) + 1) == ExtHistogram(Extensions(files)[..i + 1])
  {
    ExtHistogramStep(Extensions(files), i, ext, h, Put(h, ext, GetOr(h, ext, 0) + 1));
  }

  lemma RunFromOk(files: seq<(string, TrackTable)>, config: Config, codeLines: seq<string>, editorExit: string -> int,
                  i: nat, h: Dict<string, int>, t: Tally, ext: string, h': Dict<string, int>, next: Tally)
    requires i < |files| && ext == Ext(Lower(files[i].0)) && h' == Put(h, ext, GetOr(h, ext, 0) + 1)
    requires TallyStep(t, files[i].0, files[i].1, config, codeLines, editorExit(files[i].0)) == Ok(next)
    ensures RunFrom(files, config, codeLines, editorExit, i, h, t) == RunFrom(files, config, codeLines, editorExit, i + 1, h', next)
  {
  }

  /** Finishing the loop from a state the first `i` files produced gives the whole run. */
  lemma {:induction false} RunFromAgrees(files: seq<(string, TrackTable)>, config: Config, codeLines: seq<string>,
                                         editorExit: string -> int, i: nat, h: Dict<string, int>, t: Tally)
    requires i <= |files| && h == ExtHistogram(Extensions(files)[..i])
    requires LegacyTally(files[..i], config, codeLines, editorExit) == Ok(t)
    ensures RunFrom(files, config, codeLines, editorExit, i, h, t) == LegacyRun(files, config, codeLines, editorExit)
    decreases |files| - i
  {
    if i == |files| {
      RunFromDone(files, config, codeLines, editorExit, i, h, t);
    } else {
      var ext := Ext(Lower(files[i].0));
      var step := TallyStep(t, files[i].0, files[i].1, config, codeLines, editorExit(files[i].0));
      if step.Err? {
        LegacyRunRaises(files, i, config, codeLines, editorExit, t, step.error);
      } else {
        var h' := Put(h, ext, GetOr(h, ext, 0) + 1);
        ExtensionsAt(files, i, h, ext);
        LegacyTallyStep(files, i, config, codeLines, editorExit, t, step.value);
        RunFromAgrees(files, config, codeLines, editorExit, i + 1, h', step.value);
        RunFromOk(files, config, codeLines, editorExit, i, h, t, ext, h', step.value);
      }
    }
  }

  /** The loop started from the empty histogram and zero counters is the whole run. */
  lemma RunFromStart(files: seq<(string, TrackTable)>, config: Config, codeLines: seq<string>, editorExit: string -> int)
    ensures RunFrom(files, config, codeLines, editorExit, 0, [], Tally(LegacyCounts(0, 0, 0, 0, 0, 0), [])) ==
            LegacyRun(files, config, codeLines, editorExit)
  {
    assert files[..0] == [];
    assert Extensions(files)[..0] == [];
    RunFromAgrees(files, config, codeLines, editorExit, 0, [], Tally(LegacyCounts(0, 0, 0, 0, 0, 0), []));
  }

  /**
   * The snapshot's `change_default_tracks` up to its printed summary: the
   * histogram is bumped for every file before the `.mkv` check, and the editor's
   * exit code for each path is an input.
   */
  method LegacyChangeDefaultTracks(files: seq<(string, TrackTable)>, config: Config, codeLines: seq<string>, editorExit: string -> int)
    returns (r: Result<LegacyOutcome, CodeError>)
    ensures r == LegacyRun(files, config, codeLines, editorExit)
  {
    var mediaFileTypes: Dict<string, int> := [];
    var t := Tally(LegacyCounts(0, 0, 0, 0, 0, 0), []);
    for i := 0 to |files|
      invariant RunFrom(files, config, codeLines, editorExit, i, mediaFileTypes, t) == RunFrom(files, config, codeLines, editorExit, 0, [], Tally(LegacyCounts(0, 0, 0, 0, 0, 0), []))
    {
      var (path, table) := files[i];
      var ext := Ext(Lower(path));
      mediaFileTypes := BumpExtension(mediaFileTypes, ext, 1);
      var step := LegacyFileBody(path, table, config, codeLines, editorExit(path), t);
      if step.Err? {
        RunFromStart(files, config, codeLines, editorExit);
        return Err(step.error);
      }
      t := step.value;
    }
    r := Ok(LegacyOutcome(mediaFileTypes, t.counts, t.calls));
    RunFromStart(files, config, codeLines, editorExit);
  }
}
