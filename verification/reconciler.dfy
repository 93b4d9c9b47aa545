/**
 * `process_media_file_tracks`: the per-file pass that checks the extension,
 * verifies and resolves the audio and subtitle requests, hands the staged
 * edits to the container editor (unless dry-run) and classifies the file.
 */
module Reconciler {
  import opened Wrappers
  import opened Dict
  import opened Text
  import opened Languages
  import opened Tracks
  import opened Resolver

  /** The settings the object carries: requested codes (`None` = leave that type alone), policy, dry-run. */
  datatype Config = Config(audioCode: Option<string>, subtitleCode: Option<string>, policy: Policy, dryRun: bool)

  /** The six per-file counters, in the order of the returned tuple (`untouched` is `unchanged_count`). */
  datatype Counts = Counts(successful: int, estimated: int, untouched: int, missing: int, invalid: int, failed: int)

  /** The tuple returned per file: `((extension, 1), counters...)`. */
  datatype FileResult = FileResult(ext: string, extCount: int, counts: Counts)

  /** The file's result together with the edits handed to the editor, when it was called. */
  datatype FileReport = FileReport(result: FileResult, editorCall: Option<seq<Edit>>)

  /** What the request loop leaves: every staged edit (`mkv_cmds`) and how many types were missing. */
  datatype Resolution = Resolution(edits: seq<Edit>, missCount: nat)

  const MKV: string := ".mkv"

  predicate IsMkv(path: string)
  {
    EndsWith(Lower(path), MKV)
  }

  /** The loop's `[(audio code, "audio"), (subtitle code, "subtitles")]`. */
  function Requests(config: Config): seq<(Option<string>, TrackKind)>
  {
    [(config.audioCode, Audio), (config.subtitleCode, Subtitles)]
  }

  /** The request loop after `requests`; the first unknown code raises. */
  function ResolveRequests(table: TrackTable, requests: seq<(Option<string>, TrackKind)>, policy: Policy, codeLines: seq<string>)
    : (r: Result<Resolution, CodeError>)
    ensures r.Ok? ==> r.value.missCount <= |requests|
    ensures r.Ok? && policy == Lazy ==> r.value.missCount == 0
  {
    if requests == [] then Ok(Resolution([], 0))
    else
      var n := |requests| - 1;
      match ResolveRequests(table, requests[..n], policy, codeLines)
      case Err(e) => Err(e)
      case Ok(res) =>
        var (code, kind) := requests[n];
        if code.None? then Ok(res)
        else
          var lc := Lower(code.value);
          match VerifyLanguageCode(lc, kind, codeLines)
          case Err(e) => Err(e)
          case Ok(_) =>
            var t := ResolveType(table, kind, lc, policy);
            Ok(Resolution(res.edits + t.edits, res.missCount + if t.missing then 1 else 0))
  }

  /** The classification after the loop, given the editor's exit code should it be called. */
  function Classify(ext: string, res: Resolution, dryRun: bool, exitCode: int): FileReport
  {
    if |res.edits| > 0 && res.missCount == 0 then
      if dryRun then FileReport(FileResult(ext, 1, Counts(0, 1, 0, 0, 0, 0)), None)
      else if exitCode != 0 then FileReport(FileResult(ext, 1, Counts(0, 0, 0, 0, 0, 1)), Some(res.edits))
      else FileReport(FileResult(ext, 1, Counts(1, 0, 0, 0, 0, 0)), Some(res.edits))
    else if res.missCount > 0 then FileReport(FileResult(ext, 1, Counts(0, 0, 0, res.missCount, 0, 0)), None)
    else FileReport(FileResult(ext, 1, Counts(0, 0, 1, 0, 0, 0)), None)
  }

  /** One file, start to finish. */
  function ProcessFile(path: string, table: TrackTable, config: Config, codeLines: seq<string>, exitCode: int)
    : Result<FileReport, CodeError>
  {
    var ext := Ext(Lower(path));
    if !IsMkv(path) then Ok(FileReport(FileResult(ext, 1, Counts(0, 0, 0, 0, 1, 0)), None))
    else
      match ResolveRequests(table, Requests(config), config.policy, codeLines)
      case Err(e) => Err(e)
      case Ok(res) => Ok(Classify(ext, res, config.dryRun, exitCode))
  }

  lemma ResolveRequestsErr(table: TrackTable, requests: seq<(Option<string>, TrackKind)>, k: nat, policy: Policy, codeLines: seq<string>)
    requires k <= |requests| && ResolveRequests(table, requests[..k], policy, codeLines).Err?
    ensures ResolveRequests(table, requests, policy, codeLines) == ResolveRequests(table, requests[..k], policy, codeLines)
  {
    if k < |requests| {
      var n := |requests| - 1;
      assert requests[..n][..k] == requests[..k];
      ResolveRequestsErr(table, requests[..n], k, policy, codeLines);
    } else {
      assert requests[..k] == requests;
    }
  }

  /**
   * The request loop of the per-file pass (the same loop in both versions):
   * for the audio request, then the subtitle request, verify the lower-cased
   * code and append that type's edits; a missing type sets `no_changes`.
   */
  method StageEdits(table: TrackTable, config: Config, codeLines: seq<string>) returns (r: Result<Resolution, CodeError>)
    ensures r == ResolveRequests(table, Requests(config), config.policy, codeLines)
  {
    var cmds: seq<Edit> := [];
    var noChanges := false;
    var missCount := 0;
    var requests := Requests(config);
    for k := 0 to |requests|
      invariant ResolveRequests(table, requests[..k], config.policy, codeLines) == Ok(Resolution(cmds, missCount))
      invariant noChanges <==> missCount > 0
    {
      assert requests[..k + 1][..k] == requests[..k];
      var (code, kind) := requests[k];
      if code.Some? {
        var lc := Lower(code.value);
        var verified := VerifyLanguageCode(lc, kind, codeLines);
        if verified.Err? {
          ResolveRequestsErr(table, requests, k + 1, config.policy, codeLines);
          return Err(verified.error);
        }
        var edits, missing := ResolveTrackType(table, kind, lc, config.policy);
        cmds := cmds + edits;
        if missing {
          missCount := missCount + 1;
          noChanges := true;
        }
      }
    }
    assert requests[..|requests|] == requests;
    r := Ok(Resolution(cmds, missCount));
  }

  /** `process_media_file_tracks`, with the editor's exit code as an input. */
  method ProcessMediaFileTracks(path: string, table: TrackTable, config: Config, codeLines: seq<string>, exitCode: int)
    returns (r: Result<FileReport, CodeError>)
    ensures r == ProcessFile(path, table, config, codeLines, exitCode)
  {
    var ext := Ext(Lower(path));
    if !EndsWith(Lower(path), MKV) {
      return Ok(FileReport(FileResult(ext, 1, Counts(0, 0, 0, 0, 1, 0)), None));
    }
    var staged := StageEdits(table, config, codeLines);
    if staged.Err? {
      return Err(staged.error);
    }
    var cmds, missCount := staged.value.edits, staged.value.missCount;
    var noChanges := missCount > 0;
    var successful, estimated, untouched, failed := 0, 0, 0, 0;
    var call: Option<seq<Edit>> := None;
    if |cmds| > 0 && !noChanges {
      if !config.dryRun {
        call := Some(cmds);
        if exitCode != 0 {
          failed := failed + 1;
        } else {
          successful := successful + 1;
        }
      } else {
        estimated := estimated + 1;
      }
    } else if !noChanges {
      untouched := untouched + 1;
    }
    r := Ok(FileReport(FileResult(ext, 1, Counts(successful, estimated, untouched, missCount, 0, failed)), call));
  }

  /** The edits staged for one request (`None` requests nothing). */
  function TypeEdits(table: TrackTable, code: Option<string>, kind: TrackKind, policy: Policy): seq<Edit>
  {
    if code.None? then [] else ResolveType(table, kind, Lower(code.value), policy).edits
  }

  predicate TypeMisses(table: TrackTable, code: Option<string>, kind: TrackKind, policy: Policy)
  {
    code.Some? && ResolveType(table, kind, Lower(code.value), policy).missing
  }

  predicate CodeKnown(code: Option<string>, kind: TrackKind, codeLines: seq<string>)
  {
    code.None? || VerifyLanguageCode(Lower(code.value), kind, codeLines).Ok?
  }

  predicate CodesKnown(config: Config, codeLines: seq<string>)
  {
    CodeKnown(config.audioCode, Audio, codeLines) && CodeKnown(config.subtitleCode, Subtitles, codeLines)
  }

  /** With both codes known, the loop stages the audio edits, then the subtitle edits, and counts one miss per missing type. */
  lemma ResolveBoth(table: TrackTable, config: Config, codeLines: seq<string>)
    requires CodesKnown(config, codeLines)
    ensures ResolveRequests(table, Requests(config), config.policy, codeLines) ==
      Ok(Resolution(
        TypeEdits(table, config.audioCode, Audio, config.policy) + TypeEdits(table, config.subtitleCode, Subtitles, config.policy),
        (if TypeMisses(table, config.audioCode, Audio, config.policy) then 1 else 0) +
        (if TypeMisses(table, config.subtitleCode, Subtitles, config.policy) then 1 else 0)))
  {
    var requests := Requests(config);
    var policy := config.policy;
    assert requests[..1][..0] == [];
    assert requests[..1] == [(config.audioCode, Audio)];
    assert requests[..2] == requests;
    var first := ResolveRequests(table, requests[..1], policy, codeLines);
    var audioEdits := TypeEdits(table, config.audioCode, Audio, policy);
    var subEdits := TypeEdits(table, config.subtitleCode, Subtitles, policy);
    var audioMiss := if TypeMisses(table, config.audioCode, Audio, policy) then 1 else 0;
    var subMiss := if TypeMisses(table, config.subtitleCode, Subtitles, policy) then 1 else 0;
    assert [] + audioEdits == audioEdits && audioEdits + [] == audioEdits;
    assert ResolveRequests(table, requests[..1][..0], policy, codeLines) == Ok(Resolution([], 0));
    assert requests[..1][0] == (config.audioCode, Audio);
    assert first == Ok(Resolution(audioEdits, audioMiss));
    assert ResolveRequests(table, requests, policy, codeLines) == Ok(Resolution(audioEdits + subEdits, audioMiss + subMiss));
  }

  /**
   * Strict is all-or-nothing: when a requested type is missing, the file is
   * counted only as missing (once per missing type), nothing else is counted
   * and the editor is not called, even if the other type could be changed.
   */
  lemma StrictAllOrNothing(path: string, table: TrackTable, config: Config, codeLines: seq<string>, exitCode: int)
    requires config.policy == Strict && IsMkv(path) && CodesKnown(config, codeLines)
    requires TypeMisses(table, config.audioCode, Audio, Strict) || TypeMisses(table, config.subtitleCode, Subtitles, Strict)
    ensures var m := (if TypeMisses(table, config.audioCode, Audio, Strict) then 1 else 0) +
                     (if TypeMisses(table, config.subtitleCode, Subtitles, Strict) then 1 else 0);
      ProcessFile(path, table, config, codeLines, exitCode) ==
        Ok(FileReport(FileResult(Ext(Lower(path)), 1, Counts(0, 0, 0, m, 0, 0)), None))
  {
    ResolveBoth(table, config, codeLines);
  }

  /**
   * Lazy never blocks the other type: nothing is missing, and whatever was
   * staged for either type (including the clearing of a non-matching default
   * of a type with no matching track) is handed to the editor as one command.
   */
  lemma LazyNeverBlocks(path: string, table: TrackTable, config: Config, codeLines: seq<string>, exitCode: int)
    requires config.policy == Lazy && IsMkv(path) && CodesKnown(config, codeLines)
    ensures var r := ProcessFile(path, table, config, codeLines, exitCode);
      var edits := TypeEdits(table, config.audioCode, Audio, Lazy) + TypeEdits(table, config.subtitleCode, Subtitles, Lazy);
      && r.Ok? && r.value.result.counts.missing == 0
      && (edits == [] ==> r.value.result.counts == Counts(0, 0, 1, 0, 0, 0))
      && (edits != [] && config.dryRun ==> r.value.result.counts == Counts(0, 1, 0, 0, 0, 0))
      && (edits != [] && !config.dryRun ==> r.value.editorCall == Some(edits))
    ensures config.audioCode.Some? ==>
      forall i :: 0 <= i < |table.audio| && NeedsClear(table.audio[i].1, Lower(config.audioCode.value)) ==>
        EditFor(Audio, table.audio[i].0, |table.audio|, 0) in TypeEdits(table, config.audioCode, Audio, Lazy)
    ensures config.subtitleCode.Some? ==>
      forall i :: 0 <= i < |table.subtitles| && NeedsClear(table.subtitles[i].1, Lower(config.subtitleCode.value)) ==>
        EditFor(Subtitles, table.subtitles[i].0, |table.audio|, 0) in TypeEdits(table, config.subtitleCode, Subtitles, Lazy)
  {
    ResolveBoth(table, config, codeLines);
    if config.audioCode.Some? {
      ResolveClears(table, Audio, Lower(config.audioCode.value), Lazy);
    }
    if config.subtitleCode.Some? {
      ResolveClears(table, Subtitles, Lower(config.subtitleCode.value), Lazy);
    }
  }

  /**
   * A requested type is already satisfied when every default track has the
   * requested language and the last track with that language is a default,
   * or, for subtitles "off", when no subtitle track is a default (and none is
   * labelled "off").
   */
  predicate Satisfied(table: TrackTable, code: Option<string>, kind: TrackKind)
  {
    code.None? ||
    var lc := Lower(code.value);
    var tracks := TracksOf(table, kind);
    (lc != OFF && LastMatch(tracks, lc) >= 0 && IsDefault(tracks[LastMatch(tracks, lc)].1) &&
       forall i :: 0 <= i < |tracks| && IsDefault(tracks[i].1) ==> tracks[i].1.language == Some(lc)) ||
    (kind == Subtitles && lc == OFF && LastDefault(tracks) < 0 &&
       forall i :: 0 <= i < |tracks| ==> tracks[i].1.language != Some(OFF))
  }

  /** Already-default means unchanged: nothing staged, `unchanged_count` 1, all else 0, no editor call. */
  lemma AlreadyDefaultUnchanged(path: string, table: TrackTable, config: Config, codeLines: seq<string>, exitCode: int)
    requires IsMkv(path) && CodesKnown(config, codeLines)
    requires Satisfied(table, config.audioCode, Audio) && Satisfied(table, config.subtitleCode, Subtitles)
    ensures ProcessFile(path, table, config, codeLines, exitCode) ==
      Ok(FileReport(FileResult(Ext(Lower(path)), 1, Counts(0, 0, 1, 0, 0, 0)), None))
  {
    ResolveBoth(table, config, codeLines);
    if config.audioCode.Some? {
      var lc := Lower(config.audioCode.value);
      if lc != OFF && LastMatch(table.audio, lc) >= 0 && IsDefault(table.audio[LastMatch(table.audio, lc)].1) &&
         forall i :: 0 <= i < |table.audio| && IsDefault(table.audio[i].1) ==> table.audio[i].1.language == Some(lc) {
        AlreadySatisfied(table, Audio, lc, config.policy);
      }
    }
    if config.subtitleCode.Some? {
      var lc := Lower(config.subtitleCode.value);
      if lc == OFF {
        SubtitlesOff(table, config.policy);
      } else {
        AlreadySatisfied(table, Subtitles, lc, config.policy);
      }
    }
  }

  /** The shapes a file's counters can take: exactly one outcome, the missing counter reaching at most 2. */
  predicate OneOutcome(c: Counts)
  {
    || c == Counts(1, 0, 0, 0, 0, 0)
    || c == Counts(0, 1, 0, 0, 0, 0)
    || c == Counts(0, 0, 1, 0, 0, 0)
    || (c == Counts(0, 0, 0, c.missing, 0, 0) && 1 <= c.missing <= 2)
    || c == Counts(0, 0, 0, 0, 1, 0)
    || c == Counts(0, 0, 0, 0, 0, 1)
  }

  /**
   * Per-file classification: the histogram entry is always the lower-cased
   * extension with count 1; a non-.mkv path counts only as invalid; every
   * file takes exactly one outcome; the editor is called exactly for the
   * successful and failed outcomes, never in dry-run, with a non-empty
   * command, and the file counts as failed exactly when the exit code is non-zero.
   */
  lemma Classification(path: string, table: TrackTable, config: Config, codeLines: seq<string>, exitCode: int)
    requires ProcessFile(path, table, config, codeLines, exitCode).Ok?
    ensures var rep := ProcessFile(path, table, config, codeLines, exitCode).value;
      var c := rep.result.counts;
      && rep.result.ext == Ext(Lower(path)) && rep.result.extCount == 1
      && OneOutcome(c)
      && (c.invalid == 1 <==> !IsMkv(path))
      && (rep.editorCall.Some? <==> c.successful == 1 || c.failed == 1)
      && (config.dryRun ==> rep.editorCall == None)
      && (rep.editorCall.Some? ==> |rep.editorCall.value| > 0 && (c.failed == 1 <==> exitCode != 0))
  {
  }

  /**
   * Unknown codes: a non-.mkv path never raises; for an .mkv path the audio
   * code is checked first, then the subtitle code, and the first unknown one
   * (lower-cased) is raised.
   */
  lemma UnknownCodeRaises(path: string, table: TrackTable, config: Config, codeLines: seq<string>, exitCode: int)
    ensures !IsMkv(path) ==> ProcessFile(path, table, config, codeLines, exitCode).Ok?
    ensures IsMkv(path) && !CodeKnown(config.audioCode, Audio, codeLines) ==>
      ProcessFile(path, table, config, codeLines, exitCode) == Err(UnknownCode(Audio, Lower(config.audioCode.value)))
    ensures IsMkv(path) && CodeKnown(config.audioCode, Audio, codeLines) && !CodeKnown(config.subtitleCode, Subtitles, codeLines) ==>
      ProcessFile(path, table, config, codeLines, exitCode) == Err(UnknownCode(Subtitles, Lower(config.subtitleCode.value)))
    ensures IsMkv(path) && CodesKnown(config, codeLines) ==> ProcessFile(path, table, config, codeLines, exitCode).Ok?
  {
    var requests := Requests(config);
    assert requests[..1][..0] == [];
    assert requests[..1] == [(config.audioCode, Audio)];
    assert requests[..2] == requests;
    var first := ResolveRequests(table, requests[..1], config.policy, codeLines);
    assert first == ResolveRequests(table, requests[..2][..1], config.policy, codeLines);
    if config.audioCode.Some? {
      var lc := Lower(config.audioCode.value);
      assert first == match VerifyLanguageCode(lc, Audio, codeLines)
        case Err(e) => Err(e)
        case Ok(_) => var t := ResolveType(table, Audio, lc, config.policy);
          Ok(Resolution([] + t.edits, 0 + if t.missing then 1 else 0));
      assert [] + ResolveType(table, Audio, lc, config.policy).edits == ResolveType(table, Audio, lc, config.policy).edits;
    } else {
      assert first == Ok(Resolution([], 0));
    }
  }

  /**
   * Type-relative addressing over the whole command: every `a` edit names an
   * audio track id unchanged, every `s` edit names a subtitle track id minus
   * the number of audio tracks.
   */
  lemma CommandAddressesTracks(path: string, table: TrackTable, config: Config, codeLines: seq<string>, exitCode: int)
    requires ProcessFile(path, table, config, codeLines, exitCode).Ok?
    requires ProcessFile(path, table, config, codeLines, exitCode).value.editorCall.Some?
    ensures forall e :: e in ProcessFile(path, table, config, codeLines, exitCode).value.editorCall.value ==>
      (e.letter == 'a' && exists i :: 0 <= i < |table.audio| && e.number == table.audio[i].0) ||
      (e.letter == 's' && exists i :: 0 <= i < |table.subtitles| && e.number == table.subtitles[i].0 - |table.audio|)
  {
    UnknownCodeRaises(path, table, config, codeLines, exitCode);
    ResolveBoth(table, config, codeLines);
    var audioEdits := TypeEdits(table, config.audioCode, Audio, config.policy);
    var subEdits := TypeEdits(table, config.subtitleCode, Subtitles, config.policy);
    if config.audioCode.Some? {
      EditsAddressTracks(table, Audio, Lower(config.audioCode.value), config.policy);
    }
    if config.subtitleCode.Some? {
      EditsAddressTracks(table, Subtitles, Lower(config.subtitleCode.value), config.policy);
    }
    assert ProcessFile(path, table, config, codeLines, exitCode).value.editorCall.value == audioEdits + subEdits;
  }
}
