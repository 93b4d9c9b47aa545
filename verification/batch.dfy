/**
 * `change_default_tracks`: every file of the batch goes through the per-file
 * pass, and its result tuple is folded into the six totals and the
 * extension histogram (`media_file_types`). The worker pool hands the
 * results back in file order, so the fold is sequential here.
 */
module Batch {
  import opened Wrappers
  import opened Dict
  import opened Text
  import opened Languages
  import opened Tracks
  import opened Resolver
  import opened Reconciler

  /** The histogram and the six totals the summary prints. */
  datatype Summary = Summary(fileTypes: Dict<string, int>, totals: Counts)

  const NoCounts := Counts(0, 0, 0, 0, 0, 0)

  function AddCounts(a: Counts, b: Counts): Counts
  {
    Counts(a.successful + b.successful, a.estimated + b.estimated, a.untouched + b.untouched,
           a.missing + b.missing, a.invalid + b.invalid, a.failed + b.failed)
  }

  /** The histogram after the fold: each result bumps the entry of its extension, created at 0 when new. */
  function Histogram(rs: seq<FileResult>): Dict<string, int>
  {
    if rs == [] then []
    else
      var h := Histogram(rs[..|rs| - 1]);
      var r := rs[|rs| - 1];
      Put(h, r.ext, GetOr(h, r.ext, 0) + r.extCount)
  }

  /** The six totals after the fold. */
  function Totals(rs: seq<FileResult>): Counts
  {
    if rs == [] then NoCounts else AddCounts(Totals(rs[..|rs| - 1]), rs[|rs| - 1].counts)
  }

  function Aggregate(rs: seq<FileResult>): Summary
  {
    Summary(Histogram(rs), Totals(rs))
  }

  predicate HasExt(rs: seq<FileResult>, ext: string)
  {
    exists r :: r in rs && r.ext == ext
  }

  /** The per-file results in file order; the first unknown language code raises. */
  function Results(files: seq<(string, TrackTable)>, config: Config, codeLines: seq<string>, editorExit: string -> int)
    : Result<seq<FileResult>, CodeError>
  {
    if files == [] then Ok([])
    else
      var n := |files| - 1;
      match Results(files[..n], config, codeLines, editorExit)
      case Err(e) => Err(e)
      case Ok(rs) =>
        match ProcessFile(files[n].0, files[n].1, config, codeLines, editorExit(files[n].0))
        case Err(e) => Err(e)
        case Ok(rep) => Ok(rs + [rep.result])
  }

  function Run(files: seq<(string, TrackTable)>, config: Config, codeLines: seq<string>, editorExit: string -> int)
    : Result<Summary, CodeError>
  {
    match Results(files, config, codeLines, editorExit)
    case Err(e) => Err(e)
    case Ok(rs) => Ok(Aggregate(rs))
  }

  lemma ResultsErr(files: seq<(string, TrackTable)>, k: nat, config: Config, codeLines: seq<string>, editorExit: string -> int)
    requires k <= |files| && Results(files[..k], config, codeLines, editorExit).Err?
    ensures Results(files, config, codeLines, editorExit) == Results(files[..k], config, codeLines, editorExit)
  {
    if k < |files| {
      var n := |files| - 1;
      assert files[..n][..k] == files[..k];
      ResultsErr(files[..n], k, config, codeLines, editorExit);
    } else {
      assert files[..k] == files;
    }
  }

  lemma ResultsStep(files: seq<(string, TrackTable)>, i: nat, config: Config, codeLines: seq<string>, editorExit: string -> int,
                    rs: seq<FileResult>)
    requires i < |files| && Results(files[..i], config, codeLines, editorExit) == Ok(rs)
    ensures Results(files[..i + 1], config, codeLines, editorExit) ==
      match ProcessFile(files[i].0, files[i].1, config, codeLines, editorExit(files[i].0))
      case Err(e) => Err(e)
      case Ok(rep) => Ok(rs + [rep.result])
  {
    assert files[..i + 1][..i] == files[..i];
  }

  /** `if ext not in media_file_types: media_file_types[ext] = 0`, then `media_file_types[ext] += n`. */
  method BumpExtension(fileTypes: Dict<string, int>, ext: string, n: int) returns (bumped: Dict<string, int>)
    ensures bumped == Put(fileTypes, ext, GetOr(fileTypes, ext, 0) + n)
  {
    bumped := fileTypes;
    if Get(bumped, ext).None? {
      bumped := Put(bumped, ext, 0);
    }
    InsertThenAdd(fileTypes, ext, n, bumped);
    bumped := Put(bumped, ext, Get(bumped, ext).value + n);
  }

  lemma HistogramSnoc(rs: seq<FileResult>, x: FileResult)
    ensures var h := Histogram(rs); Histogram(rs + [x]) == Put(h, x.ext, GetOr(h, x.ext, 0) + x.extCount)
  {
    assert (rs + [x])[..|rs|] == rs;
  }

  lemma TotalsSnoc(rs: seq<FileResult>, x: FileResult)
    ensures Totals(rs + [x]) == AddCounts(Totals(rs), x.counts)
  {
    assert (rs + [x])[..|rs|] == rs;
  }

  /** The worker pool's `imap` stage: every file through the per-file pass, in file order. */
  method ProcessAll(files: seq<(string, TrackTable)>, config: Config, codeLines: seq<string>, editorExit: string -> int)
    returns (r: Result<seq<FileResult>, CodeError>)
    ensures r == Results(files, config, codeLines, editorExit)
  {
    var rs: seq<FileResult> := [];
    for i := 0 to |files|
      invariant Results(files[..i], config, codeLines, editorExit) == Ok(rs)
    {
      var (path, table) := files[i];
      var rep := ProcessMediaFileTracks(path, table, config, codeLines, editorExit(path));
      ResultsStep(files, i, config, codeLines, editorExit, rs);
      if rep.Err? {
        ResultsErr(files, i + 1, config, codeLines, editorExit);
        return Err(rep.error);
      }
      rs := rs + [rep.value.result];
    }
    assert files[..|files|] == files;
    r := Ok(rs);
  }

  /**
   * The fold over the per-file tuples: the histogram entry is created with 0
   * when the extension is new, then incremented, and the six counters are added.
   */
  method Tabulate(rs: seq<FileResult>) returns (s: Summary)
    ensures s == Aggregate(rs)
  {
    var mediaFileTypes: Dict<string, int> := [];
    var successful, estimated, untouched, missing, invalid, failed := 0, 0, 0, 0, 0, 0;
    for i := 0 to |rs|
      invariant Histogram(rs[..i]) == mediaFileTypes
      invariant Totals(rs[..i]) == Counts(successful, estimated, untouched, missing, invalid, failed)
    {
      var res := rs[i];
      HistogramSnoc(rs[..i], res);
      TotalsSnoc(rs[..i], res);
      assert rs[..i + 1] == rs[..i] + [res];
      mediaFileTypes := BumpExtension(mediaFileTypes, res.ext, res.extCount);
      successful := successful + res.counts.successful;
      estimated := estimated + res.counts.estimated;
      untouched := untouched + res.counts.untouched;
      missing := missing + res.counts.missing;
      invalid := invalid + res.counts.invalid;
      failed := failed + res.counts.failed;
    }
    assert rs[..|rs|] == rs;
    s := Summary(mediaFileTypes, Counts(successful, estimated, untouched, missing, invalid, failed));
  }

  /** `change_default_tracks` up to the printed summary, with the editor's exit code for each path as an input. */
  method ChangeDefaultTracks(files: seq<(string, TrackTable)>, config: Config, codeLines: seq<string>, editorExit: string -> int)
    returns (r: Result<Summary, CodeError>)
    ensures r == Run(files, config, codeLines, editorExit)
  {
    var results := ProcessAll(files, config, codeLines, editorExit);
    if results.Err? {
      return Err(results.error);
    }
    var summary := Tabulate(results.value);
    r := Ok(summary);
  }

  /** Reference count for the histogram: the sum of the entries carrying `ext`. */
  function Tally(rs: seq<FileResult>, ext: string): int
  {
    if rs == [] then 0
    else Tally(rs[..|rs| - 1], ext) + if rs[|rs| - 1].ext == ext then rs[|rs| - 1].extCount else 0
  }

  /**
   * The histogram holds one entry per extension that occurs, and each value
   * is the sum of the per-file entries with that extension.
   */
  lemma {:induction false} HistogramTally(rs: seq<FileResult>)
    ensures KeysUnique(Histogram(rs))
    ensures forall ext :: GetOr(Histogram(rs), ext, 0) == Tally(rs, ext)
    ensures forall ext :: Get(Histogram(rs), ext).Some? <==> HasExt(rs, ext)
  {
    if rs != [] {
      var n := |rs| - 1;
      var prev := rs[..n];
      var x := rs[n];
      HistogramTally(prev);
      assert rs == prev + [x];
      var h := Histogram(prev);
      HistogramSnoc(prev, x);
      PutGet(h, x.ext, GetOr(h, x.ext, 0) + x.extCount);
      PutUnique(h, x.ext, GetOr(h, x.ext, 0) + x.extCount);
      forall ext
        ensures HasExt(rs, ext) <==> HasExt(prev, ext) || ext == x.ext
        ensures ext != x.ext ==> Get(Histogram(rs), ext) == Get(h, ext)
      {
        HasExtSnoc(prev, x, ext);
        if ext != x.ext {
          PutGetOther(h, x.ext, GetOr(h, x.ext, 0) + x.extCount, ext);
        }
      }
    }
  }

  lemma HasExtSnoc(rs: seq<FileResult>, x: FileResult, ext: string)
    ensures HasExt(rs + [x], ext) <==> HasExt(rs, ext) || x.ext == ext
  {
    if HasExt(rs + [x], ext) && x.ext != ext {
      var r :| r in rs + [x] && r.ext == ext;
      assert r in rs;
    }
    if HasExt(rs, ext) {
      var r :| r in rs && r.ext == ext;
      assert r in rs + [x];
    }
    if x.ext == ext {
      assert x in rs + [x];
    }
  }

  lemma {:induction false} TotalsAppend(a: seq<FileResult>, b: seq<FileResult>)
    ensures Totals(a + b) == AddCounts(Totals(a), Totals(b))
  {
    if b == [] {
      assert a + b == a;
    } else {
      var n := |b| - 1;
      assert (a + b)[..|a + b| - 1] == a + b[..n];
      TotalsAppend(a, b[..n]);
    }
  }

  lemma {:induction false} TallyAppend(a: seq<FileResult>, b: seq<FileResult>, ext: string)
    ensures Tally(a + b, ext) == Tally(a, ext) + Tally(b, ext)
  {
    if b == [] {
      assert a + b == a;
    } else {
      var n := |b| - 1;
      assert (a + b)[..|a + b| - 1] == a + b[..n];
      TallyAppend(a, b[..n], ext);
    }
  }

  /** Taking one result out of the middle takes its counters out of the totals. */
  lemma TotalsRemove(b: seq<FileResult>, j: nat)
    requires j < |b|
    ensures Totals(b) == AddCounts(Totals(b[..j] + b[j + 1..]), b[j].counts)
  {
    var x := b[j];
    var left, right := b[..j], b[j + 1..];
    assert left + [x] == b[..j + 1];
    assert b[..j + 1] + right == b;
    TotalsAppend(b[..j + 1], right);
    TotalsSnoc(left, x);
    TotalsAppend(left, right);
    AddCountsSwap(Totals(left), x.counts, Totals(right));
  }

  // Solver aid: swapping two summands of the counter arithmetic, kept out of the sequence-heavy lemmas that use it.
  lemma AddCountsSwap(a: Counts, b: Counts, c: Counts)
    ensures AddCounts(AddCounts(a, b), c) == AddCounts(AddCounts(a, c), b)
  {
  }

  /** Taking one result out of the middle takes its entry out of the tally of its extension. */
  lemma TallyRemove(b: seq<FileResult>, j: nat, ext: string)
    requires j < |b|
    ensures Tally(b, ext) == Tally(b[..j] + b[j + 1..], ext) + if b[j].ext == ext then b[j].extCount else 0
  {
    var x := b[j];
    assert b == (b[..j] + [x]) + b[j + 1..];
    TallyAppend(b[..j], b[j + 1..], ext);
    TallyAppend(b[..j] + [x], b[j + 1..], ext);
    assert (b[..j] + [x])[..j] == b[..j];
  }

  /** Removing an element found at `j` from a permutation of `a + [x]` leaves a permutation of `a`. */
  lemma PermutationRest(a: seq<FileResult>, x: FileResult, b: seq<FileResult>) returns (j: nat)
    requires multiset(a + [x]) == multiset(b)
    ensures j < |b| && b[j] == x && multiset(a) == multiset(b[..j] + b[j + 1..])
  {
    assert x in multiset(b);
    j :| 0 <= j < |b| && b[j] == x;
    assert b == b[..j] + [x] + b[j + 1..];
    assert multiset(b) == multiset(b[..j]) + multiset{x} + multiset(b[j + 1..]);
    assert multiset(a + [x]) == multiset(a) + multiset{x};
    assert multiset(b[..j] + b[j + 1..]) == multiset(b[..j]) + multiset(b[j + 1..]);
    assert multiset(a) == multiset(a + [x]) - multiset{x};
    assert multiset(b[..j] + b[j + 1..]) == multiset(b) - multiset{x};
  }

  lemma {:induction false} PermutationSums(a: seq<FileResult>, b: seq<FileResult>)
    requires multiset(a) == multiset(b)
    ensures Totals(a) == Totals(b)
    ensures forall ext :: Tally(a, ext) == Tally(b, ext)
  {
    if a == [] {
      assert |b| == |multiset(b)| == 0;
    } else {
      var n := |a| - 1;
      var x := a[n];
      assert a == a[..n] + [x];
      var j := PermutationRest(a[..n], x, b);
      PermutationSums(a[..n], b[..j] + b[j + 1..]);
      TotalsRemove(b, j);
      TotalsSnoc(a[..n], x);
      forall ext
        ensures Tally(a, ext) == Tally(b, ext)
      {
        TallyRemove(b, j, ext);
      }
    }
  }

  /**
   * The order in which the per-file results arrive does not matter: any
   * rearrangement gives the same totals, the same extensions in the
   * histogram and the same count for each.
   */
  lemma AggregateOrderFree(a: seq<FileResult>, b: seq<FileResult>)
    requires multiset(a) == multiset(b)
    ensures Aggregate(a).totals == Aggregate(b).totals
    ensures forall ext :: Get(Aggregate(a).fileTypes, ext).Some? <==> Get(Aggregate(b).fileTypes, ext).Some?
    ensures forall ext :: GetOr(Aggregate(a).fileTypes, ext, 0) == GetOr(Aggregate(b).fileTypes, ext, 0)
  {
    PermutationSums(a, b);
    HistogramTally(a);
    HistogramTally(b);
    forall ext
      ensures HasExt(a, ext) <==> HasExt(b, ext)
    {
      if HasExt(a, ext) {
        var r :| r in a && r.ext == ext;
        assert r in multiset(b);
      }
      if HasExt(b, ext) {
        var r :| r in b && r.ext == ext;
        assert r in multiset(a);
      }
    }
  }

  /** All six counters of a summary added up. */
  function Outcomes(c: Counts): int
  {
    c.successful + c.estimated + c.untouched + c.missing + c.invalid + c.failed
  }

  /** Number of paths the per-file pass rejects for not ending in `.mkv`. */
  function NonMkvCount(files: seq<(string, TrackTable)>): nat
  {
    if files == [] then 0
    else NonMkvCount(files[..|files| - 1]) + if IsMkv(files[|files| - 1].0) then 0 else 1
  }

  /** What one file's tuple can hold: one histogram count, invalid exactly for a non-.mkv path, one or two counts, and the dry-run split. */
  predicate Tidy(res: FileResult, path: string, dryRun: bool)
  {
    && res.extCount == 1
    && res.counts.invalid == (if IsMkv(path) then 0 else 1)
    && 1 <= Outcomes(res.counts) <= 2
    && (dryRun ==> res.counts.successful == 0 && res.counts.failed == 0)
    && (!dryRun ==> res.counts.estimated == 0)
  }

  lemma FileShape(path: string, table: TrackTable, config: Config, codeLines: seq<string>, exitCode: int)
    requires ProcessFile(path, table, config, codeLines, exitCode).Ok?
    ensures Tidy(ProcessFile(path, table, config, codeLines, exitCode).value.result, path, config.dryRun)
  {
    Classification(path, table, config, codeLines, exitCode);
  }

  /** Every tuple of a batch whose per-file passes all completed is tidy. */
  lemma {:induction false} ResultsTidy(files: seq<(string, TrackTable)>, config: Config, codeLines: seq<string>, editorExit: string -> int)
    requires Results(files, config, codeLines, editorExit).Ok?
    ensures var rs := Results(files, config, codeLines, editorExit).value;
      |rs| == |files| && forall k :: 0 <= k < |rs| ==> Tidy(rs[k], files[k].0, config.dryRun)
  {
    if files != [] {
      var n := |files| - 1;
      var prev := Results(files[..n], config, codeLines, editorExit).value;
      ResultsTidy(files[..n], config, codeLines, editorExit);
      var (path, table) := files[n];
      FileShape(path, table, config, codeLines, editorExit(path));
      assert files[..n + 1] == files;
      ResultsStep(files, n, config, codeLines, editorExit, prev);
    }
  }

  lemma {:induction false} TidyTotals(rs: seq<FileResult>, files: seq<(string, TrackTable)>, dryRun: bool)
    requires |rs| == |files| && forall k :: 0 <= k < |rs| ==> Tidy(rs[k], files[k].0, dryRun)
    ensures Totals(rs).invalid == NonMkvCount(files)
    ensures |files| <= Outcomes(Totals(rs)) <= 2 * |files|
    ensures dryRun ==> Totals(rs).successful == 0 && Totals(rs).failed == 0
    ensures !dryRun ==> Totals(rs).estimated == 0
  {
    if rs != [] {
      var n := |rs| - 1;
      TidyTotals(rs[..n], files[..n], dryRun);
      TotalsSnoc(rs[..n], rs[n]);
      assert rs == rs[..n] + [rs[n]];
      assert Tidy(rs[n], files[n].0, dryRun);
    }
  }

  /** With one histogram entry per file, the histogram values add up to the number of files. */
  lemma {:induction false} HistogramSum(rs: seq<FileResult>)
    requires forall k :: 0 <= k < |rs| ==> rs[k].extCount == 1
    ensures ValueSum(Histogram(rs)) == |rs|
  {
    if rs != [] {
      var n := |rs| - 1;
      HistogramSum(rs[..n]);
      HistogramSnoc(rs[..n], rs[n]);
      assert rs == rs[..n] + [rs[n]];
      var d := Histogram(rs[..n]);
      PutValueSum(d, rs[n].ext, GetOr(d, rs[n].ext, 0) + 1);
    }
  }

  /**
   * The batch summary: the histogram values add up to the number of files;
   * the invalid total is the number of non-.mkv paths; every file took at
   * least one and at most two counts (two only for a file missing both
   * types); a dry run counts neither successes nor failures and a real run
   * no estimates.
   */
  lemma BatchSummary(files: seq<(string, TrackTable)>, config: Config, codeLines: seq<string>, editorExit: string -> int)
    requires Run(files, config, codeLines, editorExit).Ok?
    ensures var s := Run(files, config, codeLines, editorExit).value;
      && ValueSum(s.fileTypes) == |files|
      && s.totals.invalid == NonMkvCount(files)
      && |files| <= Outcomes(s.totals) <= 2 * |files|
      && (config.dryRun ==> s.totals.successful == 0 && s.totals.failed == 0)
      && (!config.dryRun ==> s.totals.estimated == 0)
  {
    var rs := Results(files, config, codeLines, editorExit).value;
    ResultsTidy(files, config, codeLines, editorExit);
    TidyTotals(rs, files, config.dryRun);
    HistogramSum(rs);
  }
}
