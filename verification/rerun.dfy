/**
 * What a second run of the resolver sees once the editor has applied the
 * first run's edits. The editor's effect is modelled as its command line
 * states it: each `--edit track:<letter><number> --set flag-default=<f>`
 * fragment sets the default flag of the track of that type whose number the
 * program computed, and a later fragment for the same track wins.
 *
 * For a language code, a second run stages nothing. For "off" this holds
 * when at most one subtitle track is a default track, and fails with two:
 * each run clears only the last one.
 */
module Rerun {
  import opened Wrappers
  import opened Dict
  import opened Tracks
  import opened Languages
  import opened Resolver

  /** The edit is a fragment for the track of this type with this id. */
  predicate Addresses(e: Edit, kind: TrackKind, audioCount: int, id: int)
  {
    e.letter == Letter(kind) && e.number == RelativeNumber(kind, id, audioCount)
  }

  /** One track's record after the editor applied `edits` in order; only the default flag can change. */
  function Edited(info: TrackInfo, kind: TrackKind, audioCount: int, id: int, edits: seq<Edit>): (r: TrackInfo)
    ensures r == info.(default := r.default)
  {
    if edits == [] then info
    else
      var prev := Edited(info, kind, audioCount, id, edits[..|edits| - 1]);
      var e := edits[|edits| - 1];
      if Addresses(e, kind, audioCount, id) then prev.(default := Some(e.flag == 1)) else prev
  }

  /** The tracks of one type after the editor ran; ids and order stay. */
  function ApplyTracks(tracks: Dict<int, TrackInfo>, kind: TrackKind, audioCount: int, edits: seq<Edit>): (r: Dict<int, TrackInfo>)
    ensures |r| == |tracks|
  {
    seq(|tracks|, i requires 0 <= i < |tracks| => (tracks[i].0, Edited(tracks[i].1, kind, audioCount, tracks[i].0, edits)))
  }

  /** The file's track table after the editor ran the edits staged for one type. */
  function AfterEdits(table: TrackTable, kind: TrackKind, edits: seq<Edit>): (t: TrackTable)
    ensures |t.audio| == |table.audio|
    ensures TracksOf(t, kind) == ApplyTracks(TracksOf(table, kind), kind, |table.audio|, edits)
  {
    if kind == Audio then table.(audio := ApplyTracks(table.audio, Audio, |table.audio|, edits))
    else table.(subtitles := ApplyTracks(table.subtitles, Subtitles, |table.audio|, edits))
  }

  /**
   * A track no edit addresses keeps its record; a track that some edits
   * address, all with flag `f`, ends with the default flag `f == 1`.
   */
  lemma {:induction false} EditedFacts(info: TrackInfo, kind: TrackKind, audioCount: int, id: int, edits: seq<Edit>, f: Flag)
    ensures (forall e :: e in edits ==> !Addresses(e, kind, audioCount, id)) ==> Edited(info, kind, audioCount, id, edits) == info
    ensures (exists e :: e in edits && Addresses(e, kind, audioCount, id)) &&
            (forall e :: e in edits && Addresses(e, kind, audioCount, id) ==> e.flag == f) ==>
              Edited(info, kind, audioCount, id, edits).default == Some(f == 1)
  {
    if edits != [] {
      var n := |edits| - 1;
      EditedFacts(info, kind, audioCount, id, edits[..n], f);
      assert edits == edits[..n] + [edits[n]];
    }
  }

  /** With unique ids, a fragment addresses at most one track of its type. */
  lemma AddressesOne(tracks: Dict<int, TrackInfo>, kind: TrackKind, audioCount: int, e: Edit, i: int, j: int)
    requires KeysUnique(tracks) && 0 <= i < |tracks| && 0 <= j < |tracks|
    requires Addresses(e, kind, audioCount, tracks[i].0) && Addresses(e, kind, audioCount, tracks[j].0)
    ensures i == j
  {
    assert tracks[i].0 == tracks[j].0;
  }

  /** The track that the first run makes the default: the last match, when it is not the last default already. */
  predicate Promoted(tracks: Dict<int, TrackInfo>, code: string, i: int)
  {
    i == LastMatch(tracks, code) && i != LastDefault(tracks)
  }

  /**
   * For a language code, an edit of the first run that addresses track `i`
   * sets the flag only on the promoted track and clears it only on a track
   * the scan must clear.
   */
  lemma AddressedTrack(table: TrackTable, kind: TrackKind, code: string, policy: Policy, i: int, e: Edit)
    requires code != OFF && KeysUnique(TracksOf(table, kind)) && 0 <= i < |TracksOf(table, kind)|
    requires e in ResolveType(table, kind, code, policy).edits
    requires Addresses(e, kind, |table.audio|, TracksOf(table, kind)[i].0)
    ensures e.flag == 1 ==> Promoted(TracksOf(table, kind), code, i)
    ensures e.flag == 0 ==> NeedsClear(TracksOf(table, kind)[i].1, code)
  {
    var tracks := TracksOf(table, kind);
    var ac := |table.audio|;
    var st := Scan(tracks, kind, code, ac);
    var settled := Settle(kind, code, |tracks|, st, policy, ac);
    ScanClears(tracks, kind, code, ac);
    ScanFindsLast(tracks, kind, code, ac);
    if e in st.edits {
      var j :| 0 <= j < |tracks| && NeedsClear(tracks[j].1, code) && e == EditFor(kind, tracks[j].0, ac, 0);
      AddressesOne(tracks, kind, ac, e, i, j);
    } else {
      assert e == settled.edits[0];
      var m := LastMatch(tracks, code);
      var d := LastDefault(tracks);
      assert st.chosen.At? && st.current != st.chosen && e == EditFor(kind, st.chosen.id, ac, 1);
      AddressesOne(tracks, kind, ac, e, i, m);
    }
  }

  /**
   * For a language code, after the editor ran the first run's edits: a track
   * the scan clears is no longer a default, the promoted track is one, and
   * every other track keeps its record.
   */
  lemma TrackAfter(table: TrackTable, kind: TrackKind, code: string, policy: Policy, i: int)
    requires code != OFF && KeysUnique(TracksOf(table, kind)) && 0 <= i < |TracksOf(table, kind)|
    ensures var tracks := TracksOf(table, kind);
      var after := Edited(tracks[i].1, kind, |table.audio|, tracks[i].0, ResolveType(table, kind, code, policy).edits);
      && (NeedsClear(tracks[i].1, code) ==> !IsDefault(after))
      && (Promoted(tracks, code, i) ==> IsDefault(after))
      && (!NeedsClear(tracks[i].1, code) && !Promoted(tracks, code, i) ==> after == tracks[i].1)
  {
    var tracks := TracksOf(table, kind);
    var ac := |table.audio|;
    var edits := ResolveType(table, kind, code, policy).edits;
    var id := tracks[i].0;
    forall e | e in edits && Addresses(e, kind, ac, id)
      ensures e.flag == 1 ==> Promoted(tracks, code, i)
      ensures e.flag == 0 ==> NeedsClear(tracks[i].1, code)
    {
      AddressedTrack(table, kind, code, policy, i, e);
    }
    if NeedsClear(tracks[i].1, code) {
      ResolveClears(table, kind, code, policy);
      assert Addresses(EditFor(kind, id, ac, 0), kind, ac, id);
      EditedFacts(tracks[i].1, kind, ac, id, edits, 0);
    } else if Promoted(tracks, code, i) {
      NewDefaultIsLastMatch(table, kind, code, policy);
      assert edits[|edits| - 1] in edits && Addresses(edits[|edits| - 1], kind, ac, id);
      EditedFacts(tracks[i].1, kind, ac, id, edits, 1);
    } else {
      EditedFacts(tracks[i].1, kind, ac, id, edits, 0);
    }
  }

  /** The last match depends on the languages only. */
  lemma {:induction false} LastMatchByLanguage(a: Dict<int, TrackInfo>, b: Dict<int, TrackInfo>, code: string)
    requires |a| == |b| && forall i :: 0 <= i < |a| ==> a[i].1.language == b[i].1.language
    ensures LastMatch(a, code) == LastMatch(b, code)
  {
    if a != [] {
      var n := |a| - 1;
      LastMatchByLanguage(a[..n], b[..n], code);
    }
  }

  /** The position of the last default track, read off any witness. */
  lemma LastDefaultAt(tracks: Dict<int, TrackInfo>, m: int)
    requires 0 <= m < |tracks| && IsDefault(tracks[m].1)
    requires forall j :: m < j < |tracks| ==> !IsDefault(tracks[j].1)
    ensures LastDefault(tracks) == m
  {
  }

  /**
   * Running the resolver for a language code a second time, on the tracks
   * as the editor left them, stages nothing: the cleared tracks stay
   * cleared and the new default is found as the current one.
   */
  lemma Idempotent(table: TrackTable, kind: TrackKind, code: string, policy: Policy)
    requires code != OFF && KeysUnique(TracksOf(table, kind))
    ensures ResolveType(AfterEdits(table, kind, ResolveType(table, kind, code, policy).edits), kind, code, policy).edits == []
  {
    var tracks := TracksOf(table, kind);
    var ac := |table.audio|;
    var edits := ResolveType(table, kind, code, policy).edits;
    var table2 := AfterEdits(table, kind, edits);
    var after := TracksOf(table2, kind);
    var m := LastMatch(tracks, code);
    forall i | 0 <= i < |after|
      ensures after[i].1 == tracks[i].1.(default := after[i].1.default)
      ensures !NeedsClear(after[i].1, code)
      ensures m < i ==> !IsDefault(after[i].1)
    {
      TrackAfter(table, kind, code, policy, i);
    }
    LastMatchByLanguage(tracks, after, code);
    ScanNoClears(after, kind, code, ac);
    ScanFindsLast(after, kind, code, ac);
    if m >= 0 {
      TrackAfter(table, kind, code, policy, m);
      if !Promoted(tracks, code, m) {
        assert LastDefault(tracks) == m;
      }
      LastDefaultAt(after, m);
    }
  }

  /**
   * For "off", with at most one default subtitle track (and no track
   * labelled "off"), a second run stages nothing either.
   */
  lemma OffIdempotent(table: TrackTable, policy: Policy)
    requires KeysUnique(table.subtitles)
    requires forall i :: 0 <= i < |table.subtitles| ==> table.subtitles[i].1.language != Some(OFF)
    requires forall i, j :: 0 <= i < j < |table.subtitles| && IsDefault(table.subtitles[i].1) ==> !IsDefault(table.subtitles[j].1)
    ensures ResolveType(AfterEdits(table, Subtitles, ResolveType(table, Subtitles, OFF, policy).edits), Subtitles, OFF, policy).edits == []
  {
    var subs := table.subtitles;
    var ac := |table.audio|;
    var edits := ResolveType(table, Subtitles, OFF, policy).edits;
    var table2 := AfterEdits(table, Subtitles, edits);
    var after := table2.subtitles;
    SubtitlesOff(table, policy);
    var d := LastDefault(subs);
    if edits == [] {
      forall i | 0 <= i < |after|
        ensures after[i] == subs[i]
      {
        EditedFacts(subs[i].1, Subtitles, ac, subs[i].0, edits, 0);
      }
      assert table2 == table;
    } else {
      assert edits == [EditFor(Subtitles, subs[d].0, ac, 0)];
      forall i | 0 <= i < |after|
        ensures after[i].1.language == subs[i].1.language
        ensures !IsDefault(after[i].1)
      {
        if i != d && Addresses(edits[0], Subtitles, ac, subs[i].0) {
          AddressesOne(subs, Subtitles, ac, edits[0], i, d);
        }
        EditedFacts(subs[i].1, Subtitles, ac, subs[i].0, edits, 0);
        assert i == d || i < d || d < i;
      }
      SubtitlesOff(table2, policy);
    }
  }

  function Track(language: string, isDefault: bool): TrackInfo
  {
    TrackInfo(Some(language), None, Some(isDefault), None, None, None)
  }

  /** One audio track and two default subtitle tracks. */
  const TWO_DEFAULTS: TrackTable := TrackTable([(0, Track("eng", true))], [(1, Track("eng", true)), (2, Track("jpn", true))])

  /** The same file after `s1` was cleared. */
  const ONE_DEFAULT: TrackTable := TrackTable([(0, Track("eng", true))], [(1, Track("eng", true)), (2, Track("jpn", false))])

  lemma FirstOffRun()
    ensures ResolveType(TWO_DEFAULTS, Subtitles, OFF, Strict).edits == [Edit('s', 1, 0)]
  {
    LastDefaultAt(TWO_DEFAULTS.subtitles, 1);
    SubtitlesOff(TWO_DEFAULTS, Strict);
  }

  lemma FirstOffRunApplied()
    ensures AfterEdits(TWO_DEFAULTS, Subtitles, [Edit('s', 1, 0)]) == ONE_DEFAULT
  {
    var subs := TWO_DEFAULTS.subtitles;
    var edits := [Edit('s', 1, 0)];
    var after := AfterEdits(TWO_DEFAULTS, Subtitles, edits).subtitles;
    assert forall e :: e in edits ==> e == edits[0];
    assert !Addresses(edits[0], Subtitles, 1, 1) && Addresses(edits[0], Subtitles, 1, 2);
    EditedFacts(subs[0].1, Subtitles, 1, 1, edits, 0);
    EditedFacts(subs[1].1, Subtitles, 1, 2, edits, 0);
    assert after == ONE_DEFAULT.subtitles;
  }

  lemma SecondOffRun()
    ensures ResolveType(ONE_DEFAULT, Subtitles, OFF, Strict).edits == [Edit('s', 0, 0)]
  {
    LastDefaultAt(ONE_DEFAULT.subtitles, 0);
    SubtitlesOff(ONE_DEFAULT, Strict);
  }

  /**
   * For "off" with two default subtitle tracks the resolver is not
   * idempotent: the first run clears `s1`, the second run clears `s0`.
   */
  lemma OffTwoDefaultsRestage()
    ensures var first := ResolveType(TWO_DEFAULTS, Subtitles, OFF, Strict).edits;
      first == [Edit('s', 1, 0)] &&
      ResolveType(AfterEdits(TWO_DEFAULTS, Subtitles, first), Subtitles, OFF, Strict).edits == [Edit('s', 0, 0)]
  {
    FirstOffRun();
    FirstOffRunApplied();
    SecondOffRun();
  }
}
