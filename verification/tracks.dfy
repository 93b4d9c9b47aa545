/**
 * The track model: what the container inspector reports per track, and the
 * per-file table that keeps only audio and subtitle tracks, keyed by id.
 */
module Tracks {
  import opened Wrappers
  import opened Dict
  import opened Languages

  /** The `properties` object of one inspector track (every key may be missing). */
  datatype Properties = Properties(
    language: Option<string>,
    trackName: Option<string>,
    defaultTrack: Option<bool>,
    enabledTrack: Option<bool>,
    forcedTrack: Option<bool>,
    textSubtitles: Option<bool>)

  /** One element of the inspector's `tracks` array; `kind` is its `type` string. */
  datatype RawTrack = RawTrack(id: int, kind: string, properties: Properties)

  /** The normalised per-track record the resolver reads. */
  datatype TrackInfo = TrackInfo(
    language: Option<string>,
    name: Option<string>,
    default: Option<bool>,
    enabled: Option<bool>,
    forced: Option<bool>,
    textSubtitles: Option<bool>)

  /** `{"audio": {...}, "subtitles": {...}}`, each keyed by track id in insertion order. */
  datatype TrackTable = TrackTable(audio: Dict<int, TrackInfo>, subtitles: Dict<int, TrackInfo>)

  const AUDIO: string := "audio"
  const SUBTITLES: string := "subtitles"

  function TracksOf(table: TrackTable, kind: TrackKind): Dict<int, TrackInfo>
  {
    if kind == Audio then table.audio else table.subtitles
  }

  /** Python truthiness of the `default` entry. */
  predicate IsDefault(info: TrackInfo)
  {
    info.default == Some(true)
  }

  /** `extract_track_info`: copies the properties; `text_subtitles` is kept for subtitle tracks only. */
  function ExtractTrackInfo(t: RawTrack): (info: TrackInfo)
    ensures info.language == t.properties.language && info.default == t.properties.defaultTrack
    ensures t.kind != SUBTITLES ==> info.textSubtitles == None
  {
    var p := t.properties;
    TrackInfo(p.language, p.trackName, p.defaultTrack, p.enabledTrack, p.forcedTrack,
              if t.kind == SUBTITLES then p.textSubtitles else None)
  }

  /** One iteration of the table-building loop. */
  function Insert(table: TrackTable, t: RawTrack): TrackTable
  {
    if t.kind == AUDIO then table.(audio := Put(table.audio, t.id, ExtractTrackInfo(t)))
    else if t.kind == SUBTITLES then table.(subtitles := Put(table.subtitles, t.id, ExtractTrackInfo(t)))
    else table
  }

  /** The table the loop has built after the tracks `raw`. */
  function Group(raw: seq<RawTrack>): TrackTable
  {
    if raw == [] then TrackTable([], [])
    else Insert(Group(raw[..|raw| - 1]), raw[|raw| - 1])
  }

  function KindName(kind: TrackKind): string
  {
    if kind == Audio then AUDIO else SUBTITLES
  }

  /** The table-building loop of `process_media_file_info`. */
  method BuildTrackTable(raw: seq<RawTrack>) returns (table: TrackTable)
    ensures table == Group(raw)
  {
    table := TrackTable([], []);
    for i := 0 to |raw|
      invariant table == Group(raw[..i])
    {
      assert raw[..i + 1][..i] == raw[..i];
      var t := raw[i];
      if t.kind == AUDIO || t.kind == SUBTITLES {
        if t.kind == AUDIO {
          table := table.(audio := Put(table.audio, t.id, ExtractTrackInfo(t)));
        } else {
          table := table.(subtitles := Put(table.subtitles, t.id, ExtractTrackInfo(t)));
        }
      }
    }
    assert raw[..|raw|] == raw;
  }

  predicate HasTrack(raw: seq<RawTrack>, kind: TrackKind, id: int)
  {
    exists i :: 0 <= i < |raw| && raw[i].kind == KindName(kind) && raw[i].id == id
  }

  /** Index `i` is the last track of `kind` that carries its id. */
  predicate LastWithId(raw: seq<RawTrack>, kind: TrackKind, i: int)
    requires 0 <= i < |raw|
  {
    raw[i].kind == KindName(kind) &&
    forall j :: i < j < |raw| ==> raw[j].kind != KindName(kind) || raw[j].id != raw[i].id
  }

  lemma InsertStep(table: TrackTable, t: RawTrack, kind: TrackKind)
    ensures TracksOf(Insert(table, t), kind) ==
      if t.kind == KindName(kind) then Put(TracksOf(table, kind), t.id, ExtractTrackInfo(t))
      else TracksOf(table, kind)
  {
  }

  /** Ids are unique within each type. */
  lemma {:induction false} GroupUnique(raw: seq<RawTrack>, kind: TrackKind)
    ensures KeysUnique(TracksOf(Group(raw), kind))
  {
    if raw != [] {
      var n := |raw| - 1;
      GroupUnique(raw[..n], kind);
      InsertStep(Group(raw[..n]), raw[n], kind);
      if raw[n].kind == KindName(kind) {
        PutUnique(TracksOf(Group(raw[..n]), kind), raw[n].id, ExtractTrackInfo(raw[n]));
      }
    }
  }

  lemma HasTrackSnoc(raw: seq<RawTrack>, kind: TrackKind, id: int)
    requires raw != []
    ensures var n := |raw| - 1;
      HasTrack(raw, kind, id) <==> HasTrack(raw[..n], kind, id) || (raw[n].kind == KindName(kind) && raw[n].id == id)
  {
    var n := |raw| - 1;
    if HasTrack(raw, kind, id) && !(raw[n].kind == KindName(kind) && raw[n].id == id) {
      var i :| 0 <= i < |raw| && raw[i].kind == KindName(kind) && raw[i].id == id;
      assert raw[..n][i] == raw[i];
    }
    if HasTrack(raw[..n], kind, id) {
      var i :| 0 <= i < n && raw[..n][i].kind == KindName(kind) && raw[..n][i].id == id;
      assert raw[..n][i] == raw[i];
    }
  }

  /** An id is in the table exactly when some track of that type carries it. */
  lemma {:induction false} GroupKeys(raw: seq<RawTrack>, kind: TrackKind, id: int)
    ensures Get(TracksOf(Group(raw), kind), id).Some? <==> HasTrack(raw, kind, id)
  {
    if raw != [] {
      var n := |raw| - 1;
      var prev := raw[..n];
      assert Group(raw) == Insert(Group(prev), raw[n]);
      GroupKeys(prev, kind, id);
      InsertStep(Group(prev), raw[n], kind);
      HasTrackSnoc(raw, kind, id);
      if raw[n].kind == KindName(kind) {
        PutGet(TracksOf(Group(prev), kind), raw[n].id, ExtractTrackInfo(raw[n]));
        if raw[n].id != id {
          PutGetOther(TracksOf(Group(prev), kind), raw[n].id, ExtractTrackInfo(raw[n]), id);
        }
      }
    }
  }

  /** The record kept for an id is extracted from the last track of that type carrying it. */
  lemma {:induction false} GroupLastWins(raw: seq<RawTrack>, kind: TrackKind, i: int)
    requires 0 <= i < |raw| && LastWithId(raw, kind, i)
    ensures Get(TracksOf(Group(raw), kind), raw[i].id) == Some(ExtractTrackInfo(raw[i]))
  {
    var n := |raw| - 1;
    var prev := raw[..n];
    assert Group(raw) == Insert(Group(prev), raw[n]);
    InsertStep(Group(prev), raw[n], kind);
    var before := TracksOf(Group(prev), kind);
    if i == n {
      assert TracksOf(Group(raw), kind) == Put(before, raw[n].id, ExtractTrackInfo(raw[n]));
      PutGet(before, raw[n].id, ExtractTrackInfo(raw[n]));
    } else {
      assert prev[i] == raw[i];
      assert forall j :: i < j < n ==> prev[j] == raw[j];
      assert LastWithId(prev, kind, i);
      GroupLastWins(prev, kind, i);
      assert raw[n].kind != KindName(kind) || raw[n].id != raw[i].id;
      if raw[n].kind == KindName(kind) {
        PutGetOther(before, raw[n].id, ExtractTrackInfo(raw[n]), raw[i].id);
      }
    }
  }

  /** Entries keep the order in which their ids first appeared: a longer input only extends the key list. */
  lemma {:induction false} GroupKeepsOrder(raw: seq<RawTrack>, k: nat, kind: TrackKind)
    requires k <= |raw|
    ensures Keys(TracksOf(Group(raw[..k]), kind)) <= Keys(TracksOf(Group(raw), kind))
  {
    if k < |raw| {
      var n := |raw| - 1;
      var prev := raw[..n];
      assert prev[..k] == raw[..k];
      assert Group(raw) == Insert(Group(prev), raw[n]);
      GroupKeepsOrder(prev, k, kind);
      InsertStep(Group(prev), raw[n], kind);
      if raw[n].kind == KindName(kind) {
        PutExtendsKeys(TracksOf(Group(prev), kind), raw[n].id, ExtractTrackInfo(raw[n]));
      }
    } else {
      assert raw[..k] == raw;
    }
  }
}
