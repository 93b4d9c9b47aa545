/**
 * The gathering step of the v1.0.0 snapshot, `get_media_files_info`: keep
 * the candidate paths whose name ends with one of the media suffixes, ask
 * the inspector (`mkvmerge -J`) about each kept path in order, and map
 * every path to its track table. A failed inspection raises with the
 * inspector's error output.
 */
module Gather {
  import opened Wrappers
  import opened Dict
  import opened Text
  import opened Tracks

  /** What the inspector reports for one path: its `tracks` array, or the error output of a non-zero exit. */
  type Inspector = string -> Result<seq<RawTrack>, string>

  /**
   * The default of `media_file_types` as written, `tuple(".mkv")`: a string
   * turned into a tuple is the tuple of its characters.
   */
  const AS_WRITTEN_DEFAULT_SUFFIXES: seq<string> := [".", "m", "k", "v"]

  /** The default the parameter evidently stands for, and what the command line passes: `(".mkv",)`. */
  const DEFAULT_SUFFIXES: seq<string> := [".mkv"]

  /** `list(filter(lambda f: f.endswith(media_file_types), paths))`. */
  function FilterMediaPaths(paths: seq<string>, suffixes: seq<string>): (kept: seq<string>)
    ensures |kept| <= |paths|
  {
    if paths == [] then []
    else
      var last := paths[|paths| - 1];
      FilterMediaPaths(paths[..|paths| - 1], suffixes) + if EndsWithAny(last, suffixes) then [last] else []
  }

  /** The dictionary after inspecting `paths` in order; the first failed inspection raises. */
  function MediaInfo(paths: seq<string>, inspect: Inspector): Result<Dict<string, TrackTable>, string>
  {
    if paths == [] then Ok([])
    else
      match MediaInfo(paths[..|paths| - 1], inspect)
      case Err(e) => Err(e)
      case Ok(info) =>
        match inspect(paths[|paths| - 1])
        case Err(e) => Err(e)
        case Ok(raw) => Ok(Put(info, paths[|paths| - 1], Group(raw)))
  }

  /** Every kept path is inspected and stored under its own name, its table grouped from the inspector's tracks. */
  method GetMediaFilesInfo(candidates: seq<string>, suffixes: seq<string>, inspect: Inspector)
    returns (r: Result<Dict<string, TrackTable>, string>)
    ensures r == MediaInfo(FilterMediaPaths(candidates, suffixes), inspect)
  {
    var kept := FilterMediaPaths(candidates, suffixes);
    var info: Dict<string, TrackTable> := [];
    for i := 0 to |kept|
      invariant MediaInfo(kept[..i], inspect) == Ok(info)
    {
      var output := inspect(kept[i]);
      if output.Err? {
        MediaInfoStop(kept, i, inspect, info);
        return Err(output.error);
      }
      var table := BuildTrackTable(output.value);
      MediaInfoStep(kept, i, inspect, info, output.value);
      info := Put(info, kept[i], table);
    }
    assert kept[..|kept|] == kept;
    r := Ok(info);
  }

  lemma MediaInfoStep(paths: seq<string>, i: nat, inspect: Inspector, before: Dict<string, TrackTable>, raw: seq<RawTrack>)
    requires i < |paths| && MediaInfo(paths[..i], inspect) == Ok(before) && inspect(paths[i]) == Ok(raw)
    ensures MediaInfo(paths[..i + 1], inspect) == Ok(Put(before, paths[i], Group(raw)))
  {
    assert paths[..i + 1][..i] == paths[..i];
  }

  /** A failed inspection at `i`, after `paths[..i]` went through, is the error of the whole step. */
  lemma {:induction false} MediaInfoStop(paths: seq<string>, i: nat, inspect: Inspector, before: Dict<string, TrackTable>)
    requires i < |paths| && MediaInfo(paths[..i], inspect) == Ok(before) && inspect(paths[i]).Err?
    ensures MediaInfo(paths, inspect) == Err(inspect(paths[i]).error)
  {
    var n := |paths| - 1;
    if i < n {
      assert paths[..n][..i] == paths[..i] && paths[..n][i] == paths[i];
      MediaInfoStop(paths[..n], i, inspect, before);
    }
  }

  /** A path is kept as many times as it occurs among the candidates when it ends with a suffix, and never otherwise. */
  lemma {:induction false} FilterCount(paths: seq<string>, suffixes: seq<string>, p: string)
    ensures multiset(FilterMediaPaths(paths, suffixes))[p] == if EndsWithAny(p, suffixes) then multiset(paths)[p] else 0
  {
    if paths != [] {
      var n := |paths| - 1;
      FilterCount(paths[..n], suffixes, p);
      assert paths == paths[..n] + [paths[n]];
    }
  }

  lemma FilterMember(paths: seq<string>, suffixes: seq<string>, p: string)
    ensures p in FilterMediaPaths(paths, suffixes) <==> p in paths && EndsWithAny(p, suffixes)
  {
    FilterCount(paths, suffixes, p);
  }

  /** Filtering keeps the candidates' order: it distributes over concatenation. */
  lemma {:induction false} FilterAppend(a: seq<string>, b: seq<string>, suffixes: seq<string>)
    ensures FilterMediaPaths(a + b, suffixes) == FilterMediaPaths(a, suffixes) + FilterMediaPaths(b, suffixes)
  {
    if b == [] {
      assert a + b == a;
    } else {
      var n := |b| - 1;
      FilterAppend(a, b[..n], suffixes);
      assert (a + b)[..|a + b| - 1] == a + b[..n];
    }
  }

  /** The gathering step raises exactly when some path fails inspection, with the error of the first one. */
  lemma {:induction false} MediaInfoRaises(paths: seq<string>, inspect: Inspector)
    ensures MediaInfo(paths, inspect).Ok? <==> forall i :: 0 <= i < |paths| ==> inspect(paths[i]).Ok?
    ensures MediaInfo(paths, inspect).Err? ==>
      exists k :: 0 <= k < |paths| && inspect(paths[k]).Err? && MediaInfo(paths, inspect).error == inspect(paths[k]).error
                  && forall j :: 0 <= j < k ==> inspect(paths[j]).Ok?
  {
    if paths != [] {
      var n := |paths| - 1;
      MediaInfoRaises(paths[..n], inspect);
      assert forall i :: 0 <= i < n ==> paths[..n][i] == paths[i];
      if MediaInfo(paths[..n], inspect).Err? {
        var k :| 0 <= k < n && inspect(paths[..n][k]).Err? && MediaInfo(paths[..n], inspect).error == inspect(paths[..n][k]).error
                 && forall j :: 0 <= j < k ==> inspect(paths[..n][j]).Ok?;
        assert paths[..n][k] == paths[k];
      } else if inspect(paths[n]).Err? {
        assert forall j :: 0 <= j < n ==> inspect(paths[j]).Ok?;
      }
    }
  }

  /**
   * What a completed gathering step holds: each inspected path once, mapped
   * to the table grouped from its own tracks, and no other key.
   */
  lemma {:induction false} MediaInfoEntries(paths: seq<string>, inspect: Inspector, p: string)
    requires MediaInfo(paths, inspect).Ok?
    ensures KeysUnique(MediaInfo(paths, inspect).value)
    ensures p in paths ==> inspect(p).Ok? && Get(MediaInfo(paths, inspect).value, p) == Some(Group(inspect(p).value))
    ensures p !in paths ==> Get(MediaInfo(paths, inspect).value, p) == None
  {
    if paths != [] {
      var n := |paths| - 1;
      var info := MediaInfo(paths[..n], inspect).value;
      MediaInfoEntries(paths[..n], inspect, p);
      var raw := inspect(paths[n]).value;
      MediaInfoStep(paths, n, inspect, info, raw);
      assert paths[..n + 1] == paths;
      PutUnique(info, paths[n], Group(raw));
      assert paths == paths[..n] + [paths[n]];
      if p == paths[n] {
        PutGet(info, paths[n], Group(raw));
      } else {
        PutGetOther(info, paths[n], Group(raw), p);
      }
    }
  }

  /** The keys of `get_media_files_info` are exactly the candidates that end with one of the suffixes. */
  lemma GatheredPaths(candidates: seq<string>, suffixes: seq<string>, inspect: Inspector, p: string)
    requires MediaInfo(FilterMediaPaths(candidates, suffixes), inspect).Ok?
    ensures Get(MediaInfo(FilterMediaPaths(candidates, suffixes), inspect).value, p).Some?
        <==> p in candidates && EndsWithAny(p, suffixes)
  {
    MediaInfoEntries(FilterMediaPaths(candidates, suffixes), inspect, p);
    FilterMember(candidates, suffixes, p);
  }

  /** With the default as written, a WebM file passes the filter (it ends with "m"); with the intended one it does not. */
  lemma AsWrittenDefaultKeepsWebm()
    ensures FilterMediaPaths(["clip.webm"], AS_WRITTEN_DEFAULT_SUFFIXES) == ["clip.webm"]
    ensures FilterMediaPaths(["clip.webm"], DEFAULT_SUFFIXES) == []
  {
    var path: string := "clip.webm";
    var paths: seq<string> := [path];
    assert paths[..0] == [] && paths[0] == path;
    assert path[8..] == AS_WRITTEN_DEFAULT_SUFFIXES[1];
    assert EndsWithAny(path, AS_WRITTEN_DEFAULT_SUFFIXES);
    assert path[5..] != DEFAULT_SUFFIXES[0] by {
      assert path[5..][0] != DEFAULT_SUFFIXES[0][0];
    }
    assert !EndsWithAny(path, DEFAULT_SUFFIXES);
  }

  /** With the intended default, a path is kept exactly when it ends with ".mkv", as often as it occurs. */
  lemma DefaultKeepsMkvOnly(paths: seq<string>, p: string)
    ensures multiset(FilterMediaPaths(paths, DEFAULT_SUFFIXES))[p] == if EndsWith(p, ".mkv") then multiset(paths)[p] else 0
  {
    FilterCount(paths, DEFAULT_SUFFIXES, p);
    assert EndsWithAny(p, DEFAULT_SUFFIXES) <==> EndsWith(p, DEFAULT_SUFFIXES[0]);
  }
}
