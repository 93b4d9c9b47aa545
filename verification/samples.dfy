/**
 * Worked resolutions on one sample file, which pin down single outcomes of
 * the resolver that the general lemmas in `Resolver` state for all inputs.
 */
module Samples {
  import opened Wrappers
  import opened Tracks
  import opened Languages
  import opened Resolver

  /** Audio `eng` (default) and `jpn`, subtitles `eng` and `jpn` (default), with ids 0 to 3. */
  const SAMPLE: TrackTable := TrackTable(
    [(0, TrackInfo(Some("eng"), None, Some(true), None, None, None)), (1, TrackInfo(Some("jpn"), None, Some(false), None, None, None))],
    [(2, TrackInfo(Some("eng"), None, Some(false), None, None, None)), (3, TrackInfo(Some("jpn"), None, Some(true), None, None, None))])

  /**
   * An absent audio code does not leave the audio tracks alone: under lazy
   * the scan still clears the default `eng` track `a0`, and nothing becomes
   * the default audio track; under strict the type also counts as missing.
   */
  lemma AbsentCodeStillClears(policy: Policy)
    ensures ResolveType(SAMPLE, Audio, "fra", policy) ==
      if policy == Lazy then TypeResolution([Edit('a', 0, 0)], false) else TypeResolution([Edit('a', 0, 0)], true)
  {
    var audio := SAMPLE.audio;
    var first := audio[..1];
    assert first[..0] == [] && first[0] == audio[0];
    var st0 := Scan(first[..0], Audio, "fra", 2);
    assert st0 == ScanState(Unset, Unset, []);
    var st1 := Scan(first, Audio, "fra", 2);
    assert st1 == Step(st0, Audio, "fra", 2, 0, audio[0].1);
    assert NeedsClear(audio[0].1, "fra");
    assert st1 == ScanState(At(0), Unset, [Edit('a', 0, 0)]);
    assert Scan(audio, Audio, "fra", 2) == Step(st1, Audio, "fra", 2, 1, audio[1].1);
  }

  /** The subtitle request of the same file: clear `s1` (id 3), then set `s0` (id 2). */
  lemma SampleSubtitles(policy: Policy)
    ensures ResolveType(SAMPLE, Subtitles, "eng", policy) == TypeResolution([Edit('s', 1, 0), Edit('s', 0, 1)], false)
  {
    var subs := SAMPLE.subtitles;
    var first := subs[..1];
    assert first[..0] == [] && first[0] == subs[0];
    var st0 := Scan(first[..0], Subtitles, "eng", 2);
    assert st0 == ScanState(Unset, Unset, []);
    var st1 := Scan(first, Subtitles, "eng", 2);
    assert st1 == Step(st0, Subtitles, "eng", 2, 2, subs[0].1);
    assert st1 == ScanState(Off, At(2), []);
    assert Scan(subs, Subtitles, "eng", 2) == Step(st1, Subtitles, "eng", 2, 3, subs[1].1);
  }
}
