/**
 * The default-track resolver for one track type of one file: the scan over
 * the type's tracks, the decision taken after it, and the translation of
 * global track ids into the editor's type-relative track numbers.
 */
module Resolver {
  import opened Wrappers
  import opened Dict
  import opened Languages
  import opened Tracks

  /** The subtitle code meaning "no default subtitle". */
  const OFF: string := "off"

  /** `default_method`; any other string takes the same path as "lazy", minus a log line. */
  datatype Policy = Strict | Lazy

  /** `current_default_track_num` / `new_default_track_num`: `None`, the sentinel "off", or a track id. */
  datatype Slot = Unset | Off | At(id: int)

  newtype Flag = b: int | 0 <= b <= 1

  /** One `--edit track:<letter><number> --set flag-default=<flag>` fragment. */
  datatype Edit = Edit(letter: char, number: int, flag: Flag)

  /** `track_type[0]` */
  function Letter(kind: TrackKind): char
  {
    if kind == Audio then 'a' else 's'
  }

  /** The editor's number for a track: subtitle ids are shifted down by the number of audio tracks. */
  function RelativeNumber(kind: TrackKind, id: int, audioCount: int): int
  {
    if kind == Subtitles then id - audioCount else id
  }

  function EditFor(kind: TrackKind, id: int, audioCount: int, flag: Flag): Edit
  {
    Edit(Letter(kind), RelativeNumber(kind, id, audioCount), flag)
  }

  /** A default track whose language is not the requested one gets `flag-default=0` during the scan. */
  predicate NeedsClear(info: TrackInfo, code: string)
  {
    IsDefault(info) && code != OFF && info.language != Some(code)
  }

  /** The loop variables of the scan: the current default, the new default, the edits staged so far. */
  datatype ScanState = ScanState(current: Slot, chosen: Slot, edits: seq<Edit>)

  /** What the scan keeps true, and what makes every later `.id` access well defined. */
  predicate ScanInvariant(st: ScanState, kind: TrackKind, code: string)
  {
    && (kind == Audio ==> st.current != Off)
    && (st.current == Off && code == OFF ==> st.chosen != Unset)
    && (st.chosen == Off ==> code == OFF && st.current != Unset)
  }

  /** One iteration of the scan over the track with this `id` and record. */
  function Step(st: ScanState, kind: TrackKind, code: string, audioCount: int, id: int, info: TrackInfo): ScanState
  {
    var current :=
      if IsDefault(info) then At(id)
      else if kind == Subtitles && st.current == Unset then Off
      else st.current;
    var clears := if NeedsClear(info, code) then [EditFor(kind, id, audioCount, 0)] else [];
    var chosen :=
      if info.language == Some(code) then At(id)
      else if current == Off && code == OFF then Off
      else st.chosen;
    ScanState(current, chosen, st.edits + clears)
  }

  /** The loop state after scanning `tracks` in insertion order. */
  function Scan(tracks: Dict<int, TrackInfo>, kind: TrackKind, code: string, audioCount: int): (st: ScanState)
    ensures ScanInvariant(st, kind, code)
  {
    if tracks == [] then ScanState(Unset, Unset, [])
    else
      var n := |tracks| - 1;
      Step(Scan(tracks[..n], kind, code, audioCount), kind, code, audioCount, tracks[n].0, tracks[n].1)
  }

  /** The staged edits of one type, and whether the type counts as a missing track. */
  datatype TypeResolution = TypeResolution(edits: seq<Edit>, missing: bool)

  /** The decision taken after the scan. */
  function Settle(kind: TrackKind, code: string, trackCount: nat, st: ScanState, policy: Policy, audioCount: int): (r: TypeResolution)
    requires ScanInvariant(st, kind, code)
    ensures |r.edits| <= 1
    ensures r.missing ==> policy == Strict && r.edits == [] && st.chosen == Unset
    ensures r.edits != [] ==>
      ((st.current.At? && r.edits[0] == EditFor(kind, st.current.id, audioCount, 0)) ||
       (st.chosen.At? && r.edits[0] == EditFor(kind, st.chosen.id, audioCount, 1)))
  {
    if kind == Subtitles && trackCount == 0 && code == OFF then TypeResolution([], false)
    else if st.chosen == Unset then
      if policy == Strict then
        if code != OFF || st.current == Unset then TypeResolution([], true)
        else TypeResolution([EditFor(kind, st.current.id, audioCount, 0)], false)
      else TypeResolution([], false)
    else if st.current == st.chosen then TypeResolution([], false)
    else if st.chosen == Off then TypeResolution([EditFor(kind, st.current.id, audioCount, 0)], false)
    else TypeResolution([EditFor(kind, st.chosen.id, audioCount, 1)], false)
  }

  /** Everything staged for one requested (already lower-cased) code. */
  function ResolveType(table: TrackTable, kind: TrackKind, code: string, policy: Policy): TypeResolution
  {
    var tracks := TracksOf(table, kind);
    var st := Scan(tracks, kind, code, |table.audio|);
    var settled := Settle(kind, code, |tracks|, st, policy, |table.audio|);
    TypeResolution(st.edits + settled.edits, settled.missing)
  }

  /** The body of the per-type loop of `process_media_file_tracks`. */
  method ResolveTrackType(table: TrackTable, kind: TrackKind, code: string, policy: Policy)
    returns (edits: seq<Edit>, missing: bool)
    ensures TypeResolution(edits, missing) == ResolveType(table, kind, code, policy)
  {
    var tracks := TracksOf(table, kind);
    var audioCount := |table.audio|;
    var current, chosen := Unset, Unset;
    edits := [];
    for i := 0 to |tracks|
      invariant Scan(tracks[..i], kind, code, audioCount) == ScanState(current, chosen, edits)
    {
      assert tracks[..i + 1][..i] == tracks[..i];
      var (id, info) := tracks[i];
      if IsDefault(info) {
        current := At(id);
        if code != OFF && info.language != Some(code) {
          edits := edits + [EditFor(kind, id, audioCount, 0)];
        }
      } else if kind == Subtitles && current == Unset {
        current := Off;
      }
      if info.language == Some(code) {
        chosen := At(id);
      } else if current == Off && code == OFF {
        chosen := Off;
      }
    }
    assert tracks[..|tracks|] == tracks;
    missing := false;
    if kind == Subtitles && |tracks| == 0 && code == OFF {
      // no subtitle tracks at all: "off" is already satisfied
    } else if chosen == Unset {
      if policy == Strict {
        if code != OFF || current == Unset {
          missing := true;
        } else {
          edits := edits + [EditFor(kind, current.id, audioCount, 0)];
        }
      }
    } else if current != chosen {
      var flag: Flag := if chosen == Off then 0 else 1;
      var target := if chosen == Off then current.id else chosen.id;
      edits := edits + [EditFor(kind, target, audioCount, flag)];
    }
  }

  /** Position of the last track whose language is exactly `code`, or -1. */
  function LastMatch(tracks: Dict<int, TrackInfo>, code: string): (m: int)
    ensures -1 <= m < |tracks|
    ensures m >= 0 ==> tracks[m].1.language == Some(code)
    ensures forall j :: m < j < |tracks| ==> tracks[j].1.language != Some(code)
  {
    if tracks == [] then -1
    else if tracks[|tracks| - 1].1.language == Some(code) then |tracks| - 1
    else LastMatch(tracks[..|tracks| - 1], code)
  }

  /** Position of the last default track, or -1. */
  function LastDefault(tracks: Dict<int, TrackInfo>): (m: int)
    ensures -1 <= m < |tracks|
    ensures m >= 0 ==> IsDefault(tracks[m].1)
    ensures forall j :: m < j < |tracks| ==> !IsDefault(tracks[j].1)
  {
    if tracks == [] then -1
    else if IsDefault(tracks[|tracks| - 1].1) then |tracks| - 1
    else LastDefault(tracks[..|tracks| - 1])
  }

  /**
   * After the scan the current default is the LAST default track; with no
   * default track it is the "off" sentinel for a non-empty subtitle table and
   * `None` otherwise. For any code but "off" the new default is the LAST track
   * whose language equals the code, and `None` when there is none.
   */
  lemma {:induction false} ScanFindsLast(tracks: Dict<int, TrackInfo>, kind: TrackKind, code: string, audioCount: int)
    ensures Scan(tracks, kind, code, audioCount).current ==
      if LastDefault(tracks) >= 0 then At(tracks[LastDefault(tracks)].0)
      else if kind == Subtitles && |tracks| > 0 then Off
      else Unset
    ensures code != OFF ==>
      Scan(tracks, kind, code, audioCount).chosen ==
      (if LastMatch(tracks, code) >= 0 then At(tracks[LastMatch(tracks, code)].0) else Unset)
    ensures Scan(tracks, kind, code, audioCount).chosen.At? ==>
      LastMatch(tracks, code) >= 0 && Scan(tracks, kind, code, audioCount).chosen.id == tracks[LastMatch(tracks, code)].0
  {
    if tracks != [] {
      ScanFindsLast(tracks[..|tracks| - 1], kind, code, audioCount);
    }
  }

  /**
   * With the code "off" and no track labelled "off", the sentinel becomes the
   * new default exactly when the first subtitle track is not a default track.
   */
  lemma {:induction false} ScanOffChoice(tracks: Dict<int, TrackInfo>, kind: TrackKind, audioCount: int)
    requires forall i :: 0 <= i < |tracks| ==> tracks[i].1.language != Some(OFF)
    ensures Scan(tracks, kind, OFF, audioCount).chosen ==
      if kind == Subtitles && |tracks| > 0 && !IsDefault(tracks[0].1) then Off else Unset
  {
    if tracks != [] {
      var prev := tracks[..|tracks| - 1];
      ScanOffChoice(prev, kind, audioCount);
      ScanFindsLast(prev, kind, OFF, audioCount);
      if prev != [] {
        assert prev[0] == tracks[0];
      }
    }
  }

  /**
   * The scan stages `flag-default=0` for exactly the default tracks whose
   * language differs from the code (never when the code is "off").
   */
  lemma {:induction false} ScanClears(tracks: Dict<int, TrackInfo>, kind: TrackKind, code: string, audioCount: int)
    ensures forall i :: 0 <= i < |tracks| && NeedsClear(tracks[i].1, code) ==>
      EditFor(kind, tracks[i].0, audioCount, 0) in Scan(tracks, kind, code, audioCount).edits
    ensures forall e :: e in Scan(tracks, kind, code, audioCount).edits ==>
      exists i :: 0 <= i < |tracks| && NeedsClear(tracks[i].1, code) && e == EditFor(kind, tracks[i].0, audioCount, 0)
  {
    if tracks != [] {
      var n := |tracks| - 1;
      var prev := tracks[..n];
      ScanClears(prev, kind, code, audioCount);
      forall e | e in Scan(tracks, kind, code, audioCount).edits
        ensures exists i :: 0 <= i < |tracks| && NeedsClear(tracks[i].1, code) && e == EditFor(kind, tracks[i].0, audioCount, 0)
      {
        if e in Scan(prev, kind, code, audioCount).edits {
          var i :| 0 <= i < |prev| && NeedsClear(prev[i].1, code) && e == EditFor(kind, prev[i].0, audioCount, 0);
          assert prev[i] == tracks[i];
        } else {
          assert NeedsClear(tracks[n].1, code) && e == EditFor(kind, tracks[n].0, audioCount, 0);
        }
      }
      forall i | 0 <= i < |tracks| && NeedsClear(tracks[i].1, code)
        ensures EditFor(kind, tracks[i].0, audioCount, 0) in Scan(tracks, kind, code, audioCount).edits
      {
        if i < n {
          assert prev[i] == tracks[i];
        }
      }
    }
  }

  /** With no default track to clear, the scan stages nothing. */
  lemma {:induction false} ScanNoClears(tracks: Dict<int, TrackInfo>, kind: TrackKind, code: string, audioCount: int)
    requires forall i :: 0 <= i < |tracks| ==> !NeedsClear(tracks[i].1, code)
    ensures Scan(tracks, kind, code, audioCount).edits == []
  {
    if tracks != [] {
      var prev := tracks[..|tracks| - 1];
      assert forall i :: 0 <= i < |prev| ==> prev[i] == tracks[i];
      ScanNoClears(prev, kind, code, audioCount);
    }
  }

  /**
   * Every non-matching default track of the type is cleared whatever the
   * policy, and every edit of the type either clears such a track or is the
   * single last edit staged after the scan.
   */
  lemma ResolveClears(table: TrackTable, kind: TrackKind, code: string, policy: Policy)
    ensures var tracks := TracksOf(table, kind);
      forall i :: 0 <= i < |tracks| && NeedsClear(tracks[i].1, code) ==>
        EditFor(kind, tracks[i].0, |table.audio|, 0) in ResolveType(table, kind, code, policy).edits
    ensures var tracks := TracksOf(table, kind);
      var edits := ResolveType(table, kind, code, policy).edits;
      forall k :: 0 <= k < |edits| - 1 ==>
        exists i :: 0 <= i < |tracks| && NeedsClear(tracks[i].1, code) && edits[k] == EditFor(kind, tracks[i].0, |table.audio|, 0)
  {
    var tracks := TracksOf(table, kind);
    var st := Scan(tracks, kind, code, |table.audio|);
    ScanClears(tracks, kind, code, |table.audio|);
    var settled := Settle(kind, code, |tracks|, st, policy, |table.audio|);
    var edits := ResolveType(table, kind, code, policy).edits;
    assert edits == st.edits + settled.edits;
    forall i | 0 <= i < |tracks| && NeedsClear(tracks[i].1, code)
      ensures EditFor(kind, tracks[i].0, |table.audio|, 0) in edits
    {
      assert EditFor(kind, tracks[i].0, |table.audio|, 0) in st.edits;
    }
    forall k | 0 <= k < |edits| - 1
      ensures exists i :: 0 <= i < |tracks| && NeedsClear(tracks[i].1, code) && edits[k] == EditFor(kind, tracks[i].0, |table.audio|, 0)
    {
      assert edits[k] == st.edits[k] && st.edits[k] in st.edits;
    }
  }

  /**
   * Type-relative addressing: every audio edit targets `a<id>` and every
   * subtitle edit targets `s<id - number of audio tracks>` for the id of one
   * of that type's tracks.
   */
  lemma EditsAddressTracks(table: TrackTable, kind: TrackKind, code: string, policy: Policy)
    ensures forall e :: e in ResolveType(table, kind, code, policy).edits ==>
      e.letter == (if kind == Audio then 'a' else 's') &&
      exists i :: 0 <= i < |TracksOf(table, kind)| &&
        e.number == (if kind == Audio then TracksOf(table, kind)[i].0 else TracksOf(table, kind)[i].0 - |table.audio|)
  {
    var tracks := TracksOf(table, kind);
    var audioCount := |table.audio|;
    var st := Scan(tracks, kind, code, audioCount);
    var settled := Settle(kind, code, |tracks|, st, policy, audioCount);
    ScanClears(tracks, kind, code, audioCount);
    ScanFindsLast(tracks, kind, code, audioCount);
    forall e | e in ResolveType(table, kind, code, policy).edits
      ensures e.letter == (if kind == Audio then 'a' else 's') &&
        exists i :: 0 <= i < |tracks| && e.number == (if kind == Audio then tracks[i].0 else tracks[i].0 - audioCount)
    {
      if e in st.edits {
        var i :| 0 <= i < |tracks| && NeedsClear(tracks[i].1, code) && e == EditFor(kind, tracks[i].0, audioCount, 0);
      } else {
        assert e == settled.edits[0];
        if st.current.At? && e == EditFor(kind, st.current.id, audioCount, 0) {
          assert e.number == RelativeNumber(kind, tracks[LastDefault(tracks)].0, audioCount);
        } else {
          assert e.number == RelativeNumber(kind, tracks[LastMatch(tracks, code)].0, audioCount);
        }
      }
    }
  }

  /** For a real language code, a type is missing exactly under strict when no track has that language. */
  lemma MissingIffNoMatch(table: TrackTable, kind: TrackKind, code: string, policy: Policy)
    requires code != OFF
    ensures ResolveType(table, kind, code, policy).missing <==>
      policy == Strict && forall i :: 0 <= i < |TracksOf(table, kind)| ==> TracksOf(table, kind)[i].1.language != Some(code)
  {
    var tracks := TracksOf(table, kind);
    ScanFindsLast(tracks, kind, code, |table.audio|);
    if LastMatch(tracks, code) >= 0 {
      assert tracks[LastMatch(tracks, code)].1.language == Some(code);
    }
  }

  /**
   * Language matching: all edits but the last are `flag-default=0`; when the
   * last track whose language is the code is not already the current default,
   * the type's last edit is `flag-default=1` on that track; otherwise no edit
   * of the type sets a flag to 1.
   */
  lemma NewDefaultIsLastMatch(table: TrackTable, kind: TrackKind, code: string, policy: Policy)
    requires code != OFF
    ensures var tracks := TracksOf(table, kind);
      var edits := ResolveType(table, kind, code, policy).edits;
      var m := LastMatch(tracks, code);
      var d := LastDefault(tracks);
      && (forall k :: 0 <= k < |edits| - 1 ==> edits[k].flag == 0)
      && (m >= 0 && (d < 0 || tracks[d].0 != tracks[m].0) ==>
            |edits| > 0 && edits[|edits| - 1] == EditFor(kind, tracks[m].0, |table.audio|, 1))
      && (m < 0 || (d >= 0 && tracks[d].0 == tracks[m].0) ==> forall e :: e in edits ==> e.flag == 0)
  {
    var tracks := TracksOf(table, kind);
    var st := Scan(tracks, kind, code, |table.audio|);
    var settled := Settle(kind, code, |tracks|, st, policy, |table.audio|);
    ScanFindsLast(tracks, kind, code, |table.audio|);
    ScanClears(tracks, kind, code, |table.audio|);
    ResolveClears(table, kind, code, policy);
    var edits := ResolveType(table, kind, code, policy).edits;
    assert edits == st.edits + settled.edits;
    forall e | e in st.edits
      ensures e.flag == 0
    {
      var i :| 0 <= i < |tracks| && NeedsClear(tracks[i].1, code) && e == EditFor(kind, tracks[i].0, |table.audio|, 0);
    }
  }

  /**
   * Already satisfied: when every default track of the type has the requested
   * language and the last track with that language is a default track,
   * nothing is staged and nothing is missing, whatever the policy.
   */
  lemma AlreadySatisfied(table: TrackTable, kind: TrackKind, code: string, policy: Policy)
    requires code != OFF
    requires forall i :: 0 <= i < |TracksOf(table, kind)| && IsDefault(TracksOf(table, kind)[i].1) ==>
      TracksOf(table, kind)[i].1.language == Some(code)
    requires LastMatch(TracksOf(table, kind), code) >= 0
    requires IsDefault(TracksOf(table, kind)[LastMatch(TracksOf(table, kind), code)].1)
    ensures ResolveType(table, kind, code, policy) == TypeResolution([], false)
  {
    var tracks := TracksOf(table, kind);
    var st := Scan(tracks, kind, code, |table.audio|);
    ScanFindsLast(tracks, kind, code, |table.audio|);
    ScanNoClears(tracks, kind, code, |table.audio|);
    assert LastDefault(tracks) == LastMatch(tracks, code);
  }

  /**
   * Subtitle "off" (with no track labelled "off"): with no subtitle track, or
   * none flagged default, nothing is staged; otherwise the last default
   * subtitle track gets the one `flag-default=0` edit, except under lazy when
   * the first subtitle track is itself a default track, where nothing is staged.
   * "off" is never a missing track.
   */
  lemma SubtitlesOff(table: TrackTable, policy: Policy)
    requires forall i :: 0 <= i < |table.subtitles| ==> table.subtitles[i].1.language != Some(OFF)
    ensures var r := ResolveType(table, Subtitles, OFF, policy);
      var subs := table.subtitles;
      var d := LastDefault(subs);
      && !r.missing
      && (d < 0 ==> r.edits == [])
      && (d >= 0 && (policy == Strict || !IsDefault(subs[0].1)) ==>
            r.edits == [EditFor(Subtitles, subs[d].0, |table.audio|, 0)])
      && (d >= 0 && policy == Lazy && IsDefault(subs[0].1) ==> r.edits == [])
  {
    var subs := table.subtitles;
    var st := Scan(subs, Subtitles, OFF, |table.audio|);
    ScanFindsLast(subs, Subtitles, OFF, |table.audio|);
    ScanOffChoice(subs, Subtitles, |table.audio|);
    ScanNoClears(subs, Subtitles, OFF, |table.audio|);
  }
}
