/**
 * Idempotence for a whole file: once the editor has run the command of a
 * first pass, a second pass over the same file reports it `unchanged` and
 * does not call the editor.
 */
module RerunFile {
  import opened Wrappers
  import opened Dict
  import opened Text
  import opened Languages
  import opened Tracks
  import opened Resolver
  import opened Reconciler
  import opened Rerun

  /** The file's tracks after the editor ran `command` on it; each fragment addresses one type by its letter. */
  function AfterCommand(table: TrackTable, command: seq<Edit>): (t: TrackTable)
    ensures |t.audio| == |table.audio| && |t.subtitles| == |table.subtitles|
  {
    TrackTable(ApplyTracks(table.audio, Audio, |table.audio|, command),
               ApplyTracks(table.subtitles, Subtitles, |table.audio|, command))
  }

  /**
   * The files the file-level statement covers: unique ids per type (as the
   * inspector's dictionaries have), no audio code "off", and for subtitle
   * "off" at most one default subtitle track and no track labelled "off".
   */
  ghost predicate Covered(table: TrackTable, config: Config)
  {
    && KeysUnique(table.audio) && KeysUnique(table.subtitles)
    && (config.audioCode.Some? ==> Lower(config.audioCode.value) != OFF)
    && (config.subtitleCode.Some? && Lower(config.subtitleCode.value) == OFF ==>
          && (forall i :: 0 <= i < |table.subtitles| ==> table.subtitles[i].1.language != Some(OFF))
          && (forall i, j :: 0 <= i < j < |table.subtitles| && IsDefault(table.subtitles[i].1) ==> !IsDefault(table.subtitles[j].1)))
  }

  /** Fragments that do not address a track leave it as the others made it, before or after them. */
  lemma {:induction false} EditedSkip(info: TrackInfo, kind: TrackKind, audioCount: int, id: int, a: seq<Edit>, b: seq<Edit>)
    ensures (forall e :: e in b ==> !Addresses(e, kind, audioCount, id)) ==>
      Edited(info, kind, audioCount, id, a + b) == Edited(info, kind, audioCount, id, a)
    ensures (forall e :: e in a ==> !Addresses(e, kind, audioCount, id)) ==>
      Edited(info, kind, audioCount, id, a + b) == Edited(info, kind, audioCount, id, b)
  {
    if b == [] {
      assert a + b == a;
      EditedFacts(info, kind, audioCount, id, a, 0);
    } else {
      var n := |b| - 1;
      EditedSkip(info, kind, audioCount, id, a, b[..n]);
      assert (a + b)[..|a + b| - 1] == a + b[..n];
      assert (a + b)[|a + b| - 1] == b[n];
    }
  }

  /** The resolution of one type reads only that type's tracks and the number of audio tracks. */
  lemma ResolveTypeReads(t1: TrackTable, t2: TrackTable, kind: TrackKind, code: string, policy: Policy)
    requires TracksOf(t1, kind) == TracksOf(t2, kind) && |t1.audio| == |t2.audio|
    ensures ResolveType(t1, kind, code, policy) == ResolveType(t2, kind, code, policy)
  {
  }

  /** A type's edits address only tracks of that type. */
  lemma TypeEditsLetter(table: TrackTable, code: Option<string>, kind: TrackKind, policy: Policy)
    ensures forall e :: e in TypeEdits(table, code, kind, policy) ==> e.letter == Letter(kind)
  {
    if code.Some? {
      EditsAddressTracks(table, kind, Lower(code.value), policy);
    }
  }

  /** The editor running the file's command is the audio edits applied, then the subtitle edits. */
  lemma CommandByType(table: TrackTable, audioEdits: seq<Edit>, subtitleEdits: seq<Edit>)
    requires forall e :: e in audioEdits ==> e.letter == 'a'
    requires forall e :: e in subtitleEdits ==> e.letter == 's'
    ensures AfterCommand(table, audioEdits + subtitleEdits) ==
      AfterEdits(AfterEdits(table, Audio, audioEdits), Subtitles, subtitleEdits)
  {
    var ac := |table.audio|;
    var command := audioEdits + subtitleEdits;
    forall i | 0 <= i < |table.audio|
      ensures AfterCommand(table, command).audio[i] == ApplyTracks(table.audio, Audio, ac, audioEdits)[i]
    {
      EditedSkip(table.audio[i].1, Audio, ac, table.audio[i].0, audioEdits, subtitleEdits);
    }
    forall i | 0 <= i < |table.subtitles|
      ensures AfterCommand(table, command).subtitles[i] == ApplyTracks(table.subtitles, Subtitles, ac, subtitleEdits)[i]
    {
      EditedSkip(table.subtitles[i].1, Subtitles, ac, table.subtitles[i].0, audioEdits, subtitleEdits);
    }
  }

  /** For a language code, the editor keeps every track's language, so whether the type is missing does not change. */
  lemma MissingKept(table: TrackTable, kind: TrackKind, code: string, policy: Policy, edits: seq<Edit>)
    requires code != OFF
    ensures ResolveType(AfterEdits(table, kind, edits), kind, code, policy).missing == ResolveType(table, kind, code, policy).missing
  {
    var tracks := TracksOf(table, kind);
    var after := TracksOf(AfterEdits(table, kind, edits), kind);
    MissingIffNoMatch(table, kind, code, policy);
    MissingIffNoMatch(AfterEdits(table, kind, edits), kind, code, policy);
    assert forall i :: 0 <= i < |tracks| ==> after[i].1.language == tracks[i].1.language;
  }

  /** One requested type, on a covered file with that type not missing: the second pass stages nothing and misses nothing. */
  lemma TypeRerun(table: TrackTable, config: Config, code: Option<string>, kind: TrackKind)
    requires Covered(table, config)
    requires (kind == Audio && code == config.audioCode) || (kind == Subtitles && code == config.subtitleCode)
    requires !TypeMisses(table, code, kind, config.policy)
    ensures var after := AfterEdits(table, kind, TypeEdits(table, code, kind, config.policy));
      TypeEdits(after, code, kind, config.policy) == [] && !TypeMisses(after, code, kind, config.policy)
  {
    if code.Some? {
      var lc := Lower(code.value);
      var edits := ResolveType(table, kind, lc, config.policy).edits;
      if lc == OFF {
        OffIdempotent(table, config.policy);
        SubtitlesOff(AfterEdits(table, kind, edits), config.policy);
        assert forall i :: 0 <= i < |table.subtitles| ==>
          AfterEdits(table, kind, edits).subtitles[i].1.language == table.subtitles[i].1.language;
      } else {
        Idempotent(table, kind, lc, config.policy);
        MissingKept(table, kind, lc, config.policy, edits);
      }
    } else {
      assert TypeEdits(table, code, kind, config.policy) == [];
    }
  }

  /** A pass that did not raise found both codes in the code list. */
  lemma PassedKnown(table: TrackTable, config: Config, codeLines: seq<string>)
    requires ResolveRequests(table, Requests(config), config.policy, codeLines).Ok?
    ensures CodesKnown(config, codeLines)
  {
    var requests := Requests(config);
    assert requests[..1][..0] == [] && requests[..1][0] == requests[0];
    assert requests[..2] == requests;
  }

  /** Applying the audio edits leaves a covered file covered. */
  lemma CoveredAfterAudio(table: TrackTable, config: Config, audioEdits: seq<Edit>)
    requires Covered(table, config)
    ensures Covered(AfterEdits(table, Audio, audioEdits), config)
  {
    var audioDone := AfterEdits(table, Audio, audioEdits);
    assert audioDone.subtitles == table.subtitles;
    assert forall i :: 0 <= i < |audioDone.audio| ==> audioDone.audio[i].0 == table.audio[i].0;
  }

  /** On a covered file where no type is missing, the second pass over the edited tracks stages nothing and misses nothing. */
  lemma SecondPass(table: TrackTable, config: Config, codeLines: seq<string>)
    requires Covered(table, config) && CodesKnown(config, codeLines)
    requires !TypeMisses(table, config.audioCode, Audio, config.policy)
    requires !TypeMisses(table, config.subtitleCode, Subtitles, config.policy)
    ensures var command := TypeEdits(table, config.audioCode, Audio, config.policy) +
                           TypeEdits(table, config.subtitleCode, Subtitles, config.policy);
      ResolveRequests(AfterCommand(table, command), Requests(config), config.policy, codeLines) == Ok(Resolution([], 0))
  {
    var policy := config.policy;
    var audioEdits := TypeEdits(table, config.audioCode, Audio, policy);
    var subtitleEdits := TypeEdits(table, config.subtitleCode, Subtitles, policy);
    TypeEditsLetter(table, config.audioCode, Audio, policy);
    TypeEditsLetter(table, config.subtitleCode, Subtitles, policy);
    CommandByType(table, audioEdits, subtitleEdits);
    var audioDone := AfterEdits(table, Audio, audioEdits);
    var after := AfterEdits(audioDone, Subtitles, subtitleEdits);
    TypeRerun(table, config, config.audioCode, Audio);
    if config.audioCode.Some? {
      ResolveTypeReads(audioDone, after, Audio, Lower(config.audioCode.value), policy);
    }
    if config.subtitleCode.Some? {
      ResolveTypeReads(table, audioDone, Subtitles, Lower(config.subtitleCode.value), policy);
    }
    CoveredAfterAudio(table, config, audioEdits);
    TypeRerun(audioDone, config, config.subtitleCode, Subtitles);
    ResolveBoth(after, config, codeLines);
  }

  /** The editor is called only when no type is missing, with the staged edits; with nothing staged the file is unchanged. */
  lemma ClassifyCall(ext: string, res: Resolution, dryRun: bool, exitCode: int, exitCode': int)
    ensures Classify(ext, res, dryRun, exitCode).editorCall.Some? ==>
      res.missCount == 0 && Classify(ext, res, dryRun, exitCode).editorCall.value == res.edits
    ensures Classify(ext, Resolution([], 0), dryRun, exitCode') == FileReport(FileResult(ext, 1, Counts(0, 0, 1, 0, 0, 0)), None)
  {
  }

  /**
   * A file the first pass handed to the editor, once the editor has run that
   * command, is counted `unchanged` by a second pass and not handed to the
   * editor again (whatever the editor would exit with).
   */
  lemma FileIdempotent(path: string, table: TrackTable, config: Config, codeLines: seq<string>, exitCode: int, exitCode': int)
    requires Covered(table, config)
    requires ProcessFile(path, table, config, codeLines, exitCode).Ok?
    requires ProcessFile(path, table, config, codeLines, exitCode).value.editorCall.Some?
    ensures var command := ProcessFile(path, table, config, codeLines, exitCode).value.editorCall.value;
      ProcessFile(path, AfterCommand(table, command), config, codeLines, exitCode') ==
        Ok(FileReport(FileResult(Ext(Lower(path)), 1, Counts(0, 0, 1, 0, 0, 0)), None))
  {
    var ext := Ext(Lower(path));
    var first := ResolveRequests(table, Requests(config), config.policy, codeLines);
    assert IsMkv(path) && first.Ok?;
    assert ProcessFile(path, table, config, codeLines, exitCode).value == Classify(ext, first.value, config.dryRun, exitCode);
    ClassifyCall(ext, first.value, config.dryRun, exitCode, exitCode');
    PassedKnown(table, config, codeLines);
    ResolveBoth(table, config, codeLines);
    SecondPass(table, config, codeLines);
  }
}
