/**
 * The older iTunes scraper of `isubrip/scraper.py`: which subtitles
 * renditions of a main playlist match a language filter, and whether a
 * playlist belongs to a movie title.
 */
module ITunes {
  import opened Results
  import opened Strings
  import Seqs
  import Utils
  import Hls

  /** `iSubRip.SubtitlesType` of `isubrip/enums.py`. */
  datatype SubtitlesType = Normal | ClosedCaptions | Forced

  /** The group ids of the iTunes subtitles renditions. */
  const SubtitlesGroups: seq<string> := ["subtitles_ak", "subtitles_vod-ak-amt.tv.apple.com"]

  /** A yielded match: language code, language name, type and playlist URL. */
  datatype Match = Match(languageCode: Option<string>, languageName: Option<string>, subtitlesType: SubtitlesType, uri: Option<string>)

  /** A subtitles rendition of one of the iTunes groups. */
  predicate IsITunesSubtitles(m: Hls.Media) {
    m.mediaType == Some("SUBTITLES") && m.groupId.Some? && m.groupId.value in SubtitlesGroups
  }

  /** An empty filter passes everything; otherwise the code or the name must be listed exactly. */
  predicate PassesFilter(m: Hls.Media, filter: seq<string>) {
    |filter| == 0
    || (m.language.Some? && m.language.value in filter)
    || (m.name.Some? && m.name.value in filter)
  }

  /** The type of a rendition: forced first, then closed captions, otherwise normal. */
  function TypeOf(m: Hls.Media): SubtitlesType {
    if m.forced == Some("YES") then Forced
    else if m.characteristics.Some? && Contains(m.characteristics.value, Hls.Accessibility) then ClosedCaptions
    else Normal
  }

  /** The tuple yielded for a rendition. */
  function MatchOf(m: Hls.Media): Match {
    Match(m.language, m.name, TypeOf(m), m.uri)
  }

  /** `find_matching_subtitles`, with the generator's output collected in order. */
  function FindMatchingSubtitles(media: seq<Hls.Media>, filter: seq<string>): (r: seq<Match>)
    ensures |r| <= |media|
    ensures forall x :: x in r ==> exists m :: m in media && IsITunesSubtitles(m) && PassesFilter(m, filter) && x == MatchOf(m)
    ensures forall m :: m in media && IsITunesSubtitles(m) && PassesFilter(m, filter) ==> MatchOf(m) in r
    decreases |media|
  {
    if |media| == 0 then []
    else
      var m := media[0];
      var rest := FindMatchingSubtitles(media[1..], filter);
      assert forall x :: x in media[1..] ==> x in media;
      if IsITunesSubtitles(m) && PassesFilter(m, filter) then [MatchOf(m)] + rest else rest
  }

  predicate Selectable(filter: seq<string>, m: Hls.Media) {
    IsITunesSubtitles(m) && PassesFilter(m, filter)
  }

  function SelectTest(filter: seq<string>): Hls.Media -> bool {
    m => Selectable(filter, m)
  }

  /** The matches are the selected renditions' tuples, in playlist order. */
  lemma {:induction false} FindMatchingIsMapOfFilter(media: seq<Hls.Media>, filter: seq<string>)
    ensures FindMatchingSubtitles(media, filter) == Seqs.Map(MatchOf, Seqs.Filter(SelectTest(filter), media))
    decreases |media|
  {
    if |media| > 0 {
      FindMatchingIsMapOfFilter(media[1..], filter);
      var tail := Seqs.Filter(SelectTest(filter), media[1..]);
      if Selectable(filter, media[0]) {
        assert Seqs.Filter(SelectTest(filter), media) == [media[0]] + tail;
        Seqs.MapConcat(MatchOf, [media[0]], tail);
      } else {
        assert Seqs.Filter(SelectTest(filter), media) == tail;
      }
    }
  }

  /** The legacy type agrees with `detect_subtitles_type` of the newer scraper, normal being no special type. */
  lemma TypeOfAgrees(m: Hls.Media)
    ensures TypeOf(m) == Forced <==> Hls.DetectSubtitlesType(m) == Some(Utils.Forced)
    ensures TypeOf(m) == ClosedCaptions <==> Hls.DetectSubtitlesType(m) == Some(Utils.ClosedCaptions)
    ensures TypeOf(m) == Normal <==> Hls.DetectSubtitlesType(m).None?
  {
  }

  /** With an empty filter every iTunes subtitles rendition is yielded. */
  lemma EmptyFilterKeepsAll(media: seq<Hls.Media>, m: Hls.Media)
    requires m in media && IsITunesSubtitles(m)
    ensures MatchOf(m) in FindMatchingSubtitles(media, [])
  {
  }

  // ---------------------------------------------------------------- playlist title

  /** An `#EXT-X-SESSION-DATA` entry: its `DATA-ID` and `VALUE`. */
  datatype SessionData = SessionData(dataId: string, value: Option<string>)

  const TitleDataId := "com.apple.hls.title"

  /** Entry `i` is the first title entry. */
  predicate FirstTitleAt(sessionData: seq<SessionData>, i: nat) {
    i < |sessionData| && sessionData[i].dataId == TitleDataId
    && forall j :: 0 <= j < i ==> sessionData[j].dataId != TitleDataId
  }

  /**
   * `is_playlist_valid`: the first title entry decides, by exact equality
   * with the movie title; without one the playlist is not valid.
   */
  function IsPlaylistValid(sessionData: seq<SessionData>, movieTitle: string): (r: bool)
    ensures r <==> exists i: nat :: FirstTitleAt(sessionData, i) && sessionData[i].value == Some(movieTitle)
    decreases |sessionData|
  {
    if |sessionData| == 0 then false
    else if sessionData[0].dataId == TitleDataId then
      assert FirstTitleAt(sessionData, 0);
      assert forall i: nat :: FirstTitleAt(sessionData, i) ==> i == 0;
      sessionData[0].value == Some(movieTitle)
    else
      var r := IsPlaylistValid(sessionData[1..], movieTitle);
      FirstTitleShift(sessionData);
      r
  }

  /** Behind a non-title entry, the first title entry is the tail's first one, one place later. */
  lemma FirstTitleShift(sessionData: seq<SessionData>)
    requires |sessionData| > 0 && sessionData[0].dataId != TitleDataId
    ensures forall i: nat :: FirstTitleAt(sessionData, i + 1) <==> FirstTitleAt(sessionData[1..], i)
    ensures !FirstTitleAt(sessionData, 0)
  {
    forall i: nat
      ensures FirstTitleAt(sessionData, i + 1) <==> FirstTitleAt(sessionData[1..], i)
    {
      if FirstTitleAt(sessionData[1..], i) {
        forall j | 0 <= j < i + 1
          ensures sessionData[j].dataId != TitleDataId
        {
          if j > 0 {
            assert sessionData[j] == sessionData[1..][j - 1];
          }
        }
      }
      if FirstTitleAt(sessionData, i + 1) {
        forall j | 0 <= j < i
          ensures sessionData[1..][j].dataId != TitleDataId
        {
          assert sessionData[1..][j] == sessionData[j + 1];
        }
      }
    }
  }

  /** A later title entry is never consulted: a matching one after a mismatching one does not help. */
  lemma FirstTitleDecides(first: string, later: string, movieTitle: string)
    requires first != movieTitle
    ensures !IsPlaylistValid([SessionData(TitleDataId, Some(first)), SessionData(TitleDataId, Some(later))], movieTitle)
  {
  }
}
