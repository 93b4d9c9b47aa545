/**
 * What the v1.0.0 loop promises, and how its results compare with the
 * current version's per-file pass and aggregation (module Batch).
 */
module LegacyFacts {
  import opened Wrappers
  import opened Dict
  import opened Text
  import opened Tracks
  import opened Resolver
  import opened Reconciler
  import opened Batch
  import opened Legacy

  /** All six counters of the snapshot added up. */
  function LegacyOutcomes(c: LegacyCounts): int
  {
    c.successful + c.estimated + c.untouched + c.patternMismatch + c.invalid + c.failed
  }

  /** Exactly one of the six counters is 1 and the others are 0. */
  predicate OneLegacyOutcome(c: LegacyCounts)
  {
    || c == LegacyCounts(1, 0, 0, 0, 0, 0)
    || c == LegacyCounts(0, 1, 0, 0, 0, 0)
    || c == LegacyCounts(0, 0, 1, 0, 0, 0)
    || c == LegacyCounts(0, 0, 0, 1, 0, 0)
    || c == LegacyCounts(0, 0, 0, 0, 1, 0)
    || c == LegacyCounts(0, 0, 0, 0, 0, 1)
  }

  /**
   * One file in the snapshot: it bumps exactly one counter; invalid exactly
   * for a non-.mkv path; the editor is called exactly for the successful and
   * failed outcomes, never in a dry run, always with a non-empty command,
   * and the file counts as failed exactly when the exit code is non-zero.
   */
  lemma LegacyFileShape(path: string, table: TrackTable, config: Config, codeLines: seq<string>, exitCode: int)
    requires LegacyFile(path, table, config, codeLines, exitCode).Ok?
    ensures var v := LegacyFile(path, table, config, codeLines, exitCode).value;
      && VerdictShape(v, IsMkv(path), config.dryRun)
      && (v.call.Some? ==> |v.call.value| > 0 && (v.counts.failed == 1 <==> exitCode != 0))
  {
  }

  /**
   * One mismatch per file: a `.mkv` file with one or both types missing
   * (which only happens under strict) adds 1 to `pattern_mismatch_count`
   * and nothing else, with no editor call; the current version counts each
   * missing type instead.
   */
  lemma MismatchOncePerFile(path: string, table: TrackTable, config: Config, codeLines: seq<string>, exitCode: int,
                            res: Resolution)
    requires IsMkv(path) && ResolveRequests(table, Requests(config), config.policy, codeLines) == Ok(res)
    requires res.missCount > 0
    ensures config.policy == Strict
    ensures LegacyFile(path, table, config, codeLines, exitCode) == Ok(FileVerdict(LegacyCounts(0, 0, 0, 1, 0, 0), None))
    ensures ProcessFile(path, table, config, codeLines, exitCode) ==
      Ok(FileReport(FileResult(Ext(Lower(path)), 1, Counts(0, 0, 0, res.missCount, 0, 0)), None))
  {
  }

  /** What one file's verdict can be, given whether its path ends in `.mkv` and whether the run is a dry run. */
  predicate VerdictShape(v: FileVerdict, mkv: bool, dryRun: bool)
  {
    && OneLegacyOutcome(v.counts)
    && (v.counts.invalid == 1 <==> !mkv)
    && (v.call.Some? <==> v.counts.successful == 1 || v.counts.failed == 1)
    && (dryRun ==> v.call == None && v.counts.successful == 0 && v.counts.failed == 0)
    && (!dryRun ==> v.counts.estimated == 0)
  }

  /** The counters and calls after `files` files, `invalid` of them not `.mkv`. */
  predicate TallyShape(t: Tally, files: int, invalid: int, dryRun: bool)
  {
    && LegacyOutcomes(t.counts) == files
    && t.counts.invalid == invalid
    && |t.calls| == t.counts.successful + t.counts.failed
    && (dryRun ==> t.calls == [] && t.counts.successful == 0 && t.counts.failed == 0)
    && (!dryRun ==> t.counts.estimated == 0)
  }

  lemma TallyShapeStep(t: Tally, n: int, invalid: int, dryRun: bool, path: string, v: FileVerdict, mkv: bool,
                       next: Tally, n': int, invalid': int)
    requires TallyShape(t, n, invalid, dryRun) && VerdictShape(v, mkv, dryRun)
    requires next == Tally(AddLegacy(t.counts, v.counts), CallsAfter(t.calls, path, v.call))
    requires n' == n + 1 && invalid' == invalid + (if mkv then 0 else 1)
    ensures TallyShape(next, n', invalid', dryRun)
  {
  }

  /**
   * Over a whole run: one counter per file, invalid counts the non-.mkv
   * paths, one editor call per successful or failed file, and a dry run
   * makes no call at all.
   */
  lemma {:induction false} LegacyTallyFacts(files: seq<(string, TrackTable)>, config: Config, codeLines: seq<string>,
                                            editorExit: string -> int)
    requires LegacyTally(files, config, codeLines, editorExit).Ok?
    ensures TallyShape(LegacyTally(files, config, codeLines, editorExit).value, |files|, NonMkvCount(files), config.dryRun)
  {
    if files != [] {
      var n := |files| - 1;
      LegacyTallyFacts(files[..n], config, codeLines, editorExit);
      LegacyTallyFactsStep(files, config, codeLines, editorExit, LegacyTally(files[..n], config, codeLines, editorExit).value,
                           LegacyFile(files[n].0, files[n].1, config, codeLines, editorExit(files[n].0)).value);
    } else {
      assert LegacyTally(files, config, codeLines, editorExit) == Ok(Tally(LegacyCounts(0, 0, 0, 0, 0, 0), []));
    }
  }

  lemma LegacyTallyFactsStep(files: seq<(string, TrackTable)>, config: Config, codeLines: seq<string>,
                             editorExit: string -> int, t: Tally, v: FileVerdict)
    requires files != [] && LegacyTally(files[..|files| - 1], config, codeLines, editorExit) == Ok(t)
    requires var last := files[|files| - 1];
      LegacyFile(last.0, last.1, config, codeLines, editorExit(last.0)) == Ok(v)
    requires TallyShape(t, |files| - 1, NonMkvCount(files[..|files| - 1]), config.dryRun)
    ensures TallyShape(LegacyTally(files, config, codeLines, editorExit).value, |files|, NonMkvCount(files), config.dryRun)
  {
    var n := |files| - 1;
    LegacyTallyUnfold(files, config, codeLines, editorExit, t, v);
    LegacyFileShape(files[n].0, files[n].1, config, codeLines, editorExit(files[n].0));
    TallyShapeStep(t, n, NonMkvCount(files[..n]), config.dryRun, files[n].0, v, IsMkv(files[n].0),
                   LegacyTally(files, config, codeLines, editorExit).value, |files|, NonMkvCount(files));
  }

  lemma LegacyTallyUnfold(files: seq<(string, TrackTable)>, config: Config, codeLines: seq<string>,
                          editorExit: string -> int, t: Tally, v: FileVerdict)
    requires files != [] && LegacyTally(files[..|files| - 1], config, codeLines, editorExit) == Ok(t)
    requires var last := files[|files| - 1];
      LegacyFile(last.0, last.1, config, codeLines, editorExit(last.0)) == Ok(v)
    ensures LegacyTally(files, config, codeLines, editorExit)
         == Ok(Tally(AddLegacy(t.counts, v.counts), CallsAfter(t.calls, files[|files| - 1].0, v.call)))
    ensures NonMkvCount(files) == NonMkvCount(files[..|files| - 1]) + if IsMkv(files[|files| - 1].0) then 0 else 1
  {
  }

  /**
   * The histogram the snapshot builds from a list of extensions holds each
   * extension once, with the number of times it occurs; the values add up
   * to the length of the list.
   */
  lemma {:induction false} ExtHistogramCounts(exts: seq<string>)
    ensures KeysUnique(ExtHistogram(exts))
    ensures forall e :: GetOr(ExtHistogram(exts), e, 0) == multiset(exts)[e]
    ensures forall e :: Get(ExtHistogram(exts), e).Some? <==> e in exts
    ensures ValueSum(ExtHistogram(exts)) == |exts|
  {
    if exts != [] {
      var n := |exts| - 1;
      var prev, x := exts[..n], exts[n];
      ExtHistogramCounts(prev);
      assert exts == prev + [x];
      var h := ExtHistogram(prev);
      var v := GetOr(h, x, 0) + 1;
      PutGet(h, x, v);
      PutUnique(h, x, v);
      PutValueSum(h, x, v);
      forall e | e != x
        ensures Get(Put(h, x, v), e) == Get(h, e)
      {
        PutGetOther(h, x, v, e);
      }
    }
  }

  /** The histogram counts every file, `.mkv` or not: per extension, the number of paths that carry it. */
  lemma LegacyHistogram(files: seq<(string, TrackTable)>, config: Config, codeLines: seq<string>, editorExit: string -> int)
    requires LegacyRun(files, config, codeLines, editorExit).Ok?
    ensures var h := LegacyRun(files, config, codeLines, editorExit).value.fileTypes;
      && ValueSum(h) == |files|
      && (forall e :: GetOr(h, e, 0) == multiset(Extensions(files))[e])
      && (forall i :: 0 <= i < |files| ==> Get(h, Ext(Lower(files[i].0))).Some?)
  {
    var exts := Extensions(files);
    ExtHistogramCounts(exts);
    forall i | 0 <= i < |files|
      ensures Get(ExtHistogram(exts), Ext(Lower(files[i].0))).Some?
    {
      assert exts[i] in exts;
    }
  }

  /** The snapshot's counters against the current ones: equal, except that each pattern mismatch is one or two misses. */
  predicate Agrees(lc: LegacyCounts, c: Counts)
  {
    && lc.successful == c.successful && lc.estimated == c.estimated && lc.untouched == c.untouched
    && lc.invalid == c.invalid && lc.failed == c.failed
    && lc.patternMismatch <= c.missing <= 2 * lc.patternMismatch
  }

  lemma AgreesAdd(a: LegacyCounts, c: Counts, b: LegacyCounts, d: Counts)
    requires Agrees(a, c) && Agrees(b, d)
    ensures Agrees(AddLegacy(a, b), AddCounts(c, d))
  {
  }

  /**
   * One file in both versions: the same error when a code is unknown;
   * otherwise the same editor call and the same counters, except that the
   * snapshot's one mismatch stands for one or two missing types.
   */
  lemma LegacyFileAgrees(path: string, table: TrackTable, config: Config, codeLines: seq<string>, exitCode: int)
    ensures var v := LegacyFile(path, table, config, codeLines, exitCode);
      var rep := ProcessFile(path, table, config, codeLines, exitCode);
      && (v.Ok? <==> rep.Ok?)
      && (v.Err? ==> rep.error == v.error)
      && (v.Ok? ==> Agrees(v.value.counts, rep.value.result.counts) && v.value.call == rep.value.editorCall)
  {
    if IsMkv(path) {
      var staged := ResolveRequests(table, Requests(config), config.policy, codeLines);
      if staged.Ok? {
        VerdictAgrees(staged.value, config.dryRun, exitCode, Ext(Lower(path)));
      }
    }
  }

  lemma VerdictAgrees(res: Resolution, dryRun: bool, exitCode: int, ext: string)
    requires res.missCount <= 2
    ensures var v := LegacyVerdict(res, dryRun, exitCode);
      var rep := Classify(ext, res, dryRun, exitCode);
      Agrees(v.counts, rep.result.counts) && v.call == rep.editorCall
  {
  }

  /** The per-file tuples of a completed batch: each carries its path's lower-cased extension and count 1. */
  lemma {:induction false} ResultsExtensions(files: seq<(string, TrackTable)>, config: Config, codeLines: seq<string>,
                                             editorExit: string -> int)
    requires Results(files, config, codeLines, editorExit).Ok?
    ensures var rs := Results(files, config, codeLines, editorExit).value;
      |rs| == |files| && forall k :: 0 <= k < |rs| ==> rs[k].ext == Ext(Lower(files[k].0)) && rs[k].extCount == 1
  {
    if files != [] {
      var n := |files| - 1;
      var prev := Results(files[..n], config, codeLines, editorExit).value;
      ResultsExtensions(files[..n], config, codeLines, editorExit);
      var (path, table) := files[n];
      Classification(path, table, config, codeLines, editorExit(path));
      assert files[..n + 1] == files;
      ResultsStep(files, n, config, codeLines, editorExit, prev);
    }
  }

  lemma HistogramLastSame(rs: seq<FileResult>, exts: seq<string>, h: Dict<string, int>)
    requires rs != [] && exts != [] && rs[|rs| - 1].ext == exts[|exts| - 1] && rs[|rs| - 1].extCount == 1
    requires Histogram(rs[..|rs| - 1]) == h && ExtHistogram(exts[..|exts| - 1]) == h
    ensures Histogram(rs) == ExtHistogram(exts)
  {
    HistogramUnfold(rs, h);
    ExtHistogramUnfold(exts, h);
    BumpLast(rs, exts, h);
    SameDict(Histogram(rs), ExtHistogram(exts),
             Put(h, rs[|rs| - 1].ext, GetOr(h, rs[|rs| - 1].ext, 0) + rs[|rs| - 1].extCount),
             Put(h, exts[|exts| - 1], GetOr(h, exts[|exts| - 1], 0) + 1));
  }

  // Solver aid: equality through two shared terms, stated on plain variables to keep string-keyed terms out of the caller.
  lemma SameDict(a: Dict<string, int>, b: Dict<string, int>, c: Dict<string, int>, d: Dict<string, int>)
    requires a == c
    requires b == d
    requires c == d
    ensures a == b
  {
  }

  lemma HistogramUnfold(rs: seq<FileResult>, h: Dict<string, int>)
    requires rs != [] && Histogram(rs[..|rs| - 1]) == h
    ensures Histogram(rs) == Put(h, rs[|rs| - 1].ext, GetOr(h, rs[|rs| - 1].ext, 0) + rs[|rs| - 1].extCount)
  {
    BumpCongruent(Histogram(rs[..|rs| - 1]), h, rs[|rs| - 1].ext, rs[|rs| - 1].extCount);
  }

  lemma ExtHistogramUnfold(exts: seq<string>, h: Dict<string, int>)
    requires exts != [] && ExtHistogram(exts[..|exts| - 1]) == h
    ensures ExtHistogram(exts) == Put(h, exts[|exts| - 1], GetOr(h, exts[|exts| - 1], 0) + 1)
  {
    BumpCongruent(ExtHistogram(exts[..|exts| - 1]), h, exts[|exts| - 1], 1);
  }

  // Solver aid: congruence of one histogram bump in the dictionary it bumps.
  lemma BumpCongruent(h: Dict<string, int>, h': Dict<string, int>, k: string, n: int)
    requires h == h'
    ensures Put(h, k, GetOr(h, k, 0) + n) == Put(h', k, GetOr(h', k, 0) + n)
  {
  }

  lemma BumpLast(rs: seq<FileResult>, exts: seq<string>, h: Dict<string, int>)
    requires rs != [] && exts != [] && rs[|rs| - 1].ext == exts[|exts| - 1] && rs[|rs| - 1].extCount == 1
    ensures Put(h, rs[|rs| - 1].ext, GetOr(h, rs[|rs| - 1].ext, 0) + rs[|rs| - 1].extCount)
         == Put(h, exts[|exts| - 1], GetOr(h, exts[|exts| - 1], 0) + 1)
  {
    BumpSame(h, rs[|rs| - 1].ext, exts[|exts| - 1], rs[|rs| - 1].extCount);
  }

  // Solver aid: two bumps by one on equal keys give the same dictionary.
  lemma BumpSame(h: Dict<string, int>, a: string, b: string, n: int)
    requires a == b
    requires n == 1
    ensures Put(h, a, GetOr(h, a, 0) + n) == Put(h, b, GetOr(h, b, 0) + 1)
  {
  }

  /** Folding tuples that each carry count 1 gives the histogram of their extensions. */
  lemma {:induction false} HistogramOfExtensions(rs: seq<FileResult>, exts: seq<string>)
    requires |rs| == |exts| && forall k :: 0 <= k < |rs| ==> rs[k].ext == exts[k] && rs[k].extCount == 1
    ensures Histogram(rs) == ExtHistogram(exts)
  {
    if rs != [] {
      var n := |rs| - 1;
      assert forall k :: 0 <= k < n ==> rs[..n][k] == rs[k] && exts[..n][k] == exts[k];
      HistogramOfExtensions(rs[..n], exts[..n]);
      HistogramLastSame(rs, exts, Histogram(rs[..n]));
    }
  }

  /** The counters and errors of both versions, file by file. */
  lemma {:induction false} TallyAgrees(files: seq<(string, TrackTable)>, config: Config, codeLines: seq<string>,
                                       editorExit: string -> int)
    ensures var t := LegacyTally(files, config, codeLines, editorExit);
      var rs := Results(files, config, codeLines, editorExit);
      && (t.Ok? <==> rs.Ok?)
      && (t.Err? ==> rs.error == t.error)
      && (t.Ok? ==> Agrees(t.value.counts, Totals(rs.value)))
  {
    if files != [] {
      var n := |files| - 1;
      var prev := files[..n];
      TallyAgrees(prev, config, codeLines, editorExit);
      var (path, table) := files[n];
      LegacyFileAgrees(path, table, config, codeLines, editorExit(path));
      var t := LegacyTally(prev, config, codeLines, editorExit);
      var rs := Results(prev, config, codeLines, editorExit);
      if t.Ok? {
        var rep := ProcessFile(path, table, config, codeLines, editorExit(path));
        if rep.Ok? {
          var v := LegacyFile(path, table, config, codeLines, editorExit(path)).value;
          TotalsSnoc(rs.value, rep.value.result);
          AgreesAdd(t.value.counts, Totals(rs.value), v.counts, rep.value.result.counts);
        }
      }
    }
  }

  /**
   * Both versions of `change_default_tracks` on the same files: one raises
   * exactly when the other does, with the same error; otherwise they build
   * the same extension histogram and the same counters, except that a file
   * the snapshot counts as one pattern mismatch is one or two misses now.
   */
  lemma LegacyAgreesWithCurrent(files: seq<(string, TrackTable)>, config: Config, codeLines: seq<string>,
                                editorExit: string -> int)
    ensures var snapshot := LegacyRun(files, config, codeLines, editorExit);
      var now := Run(files, config, codeLines, editorExit);
      && (snapshot.Ok? <==> now.Ok?)
      && (snapshot.Err? ==> now.error == snapshot.error)
      && (snapshot.Ok? ==> snapshot.value.fileTypes == now.value.fileTypes && Agrees(snapshot.value.counts, now.value.totals))
  {
    TallyAgrees(files, config, codeLines, editorExit);
    var rs := Results(files, config, codeLines, editorExit);
    if rs.Ok? {
      ResultsExtensions(files, config, codeLines, editorExit);
      HistogramOfExtensions(rs.value, Extensions(files));
    }
  }
}
