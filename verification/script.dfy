/**
 * The helpers of the original single-file script `iSubRip.py`: the title
 * and file names it writes, and the predicate that picks the subtitles
 * renditions to download. The ffmpeg calls, the temporary folder and the
 * zip archive are left out.
 */
module Script {
  import opened Results
  import opened Strings
  import Seqs
  import Hls
  import ITunes

  /** `format_title`: a fixed chain of replacements that leaves no space or parenthesis. */
  function FormatTitle(title: string): (r: string)
    ensures ' ' !in r && '(' !in r && ')' !in r
  {
    var t1 := Replace(title, ": ", ".");
    var t2 := Replace(t1, " - ", "-");
    var t3 := Replace(t2, ", ", ".");
    var t4 := Replace(t3, ". ", ".");
    var t5 := Replace(t4, " ", ".");
    ReplaceCharGone(t4, ' ', ".");
    var t6 := Replace(t5, "(", "");
    ReplaceCharGone(t5, '(', "");
    var t7 := Replace(t6, ")", "");
    ReplaceCharGone(t6, ')', "");
    Replace(t7, "&amp;", "&")
  }

  /** A title without spaces, parentheses or `&` is already formatted. */
  lemma FormatTitleIdentity(title: string)
    requires ' ' !in title && '(' !in title && ')' !in title && '&' !in title
    ensures FormatTitle(title) == title
  {
    ReplaceMissing(title, ": ", ".", 1);
    ReplaceMissing(title, " - ", "-", 0);
    ReplaceMissing(title, ", ", ".", 1);
    ReplaceMissing(title, ". ", ".", 1);
    ReplaceMissing(title, " ", ".", 0);
    ReplaceMissing(title, "(", "", 0);
    ReplaceMissing(title, ")", "", 0);
    ReplaceMissing(title, "&amp;", "&", 0);
  }

  /** `format_zip_name`: `<title>.iT.WEB`. */
  function FormatZipName(title: string): (r: string)
    ensures StartsWith(r, FormatTitle(title))
  {
    FormatTitle(title) + ".iT.WEB"
  }

  /**
   * `format_file_name`: the archive name of the same title, then the
   * language, `.forced` for forced subtitles, and `.vtt`.
   */
  function FormatFileName(title: string, languageCode: string, isForced: bool): (r: string)
    ensures r == FormatZipName(title) + "." + languageCode + (if isForced then ".forced" else "") + ".vtt"
  {
    FormatTitle(title) + ".iT.WEB." + languageCode + (if isForced then ".forced" else "") + ".vtt"
  }

  // ---------------------------------------------------------------- renditions

  /** `DOWNLOAD_FILTER = [item.lower() for item in DOWNLOAD_FILTER]`, done once at start-up. */
  function LowerFilter(filter: seq<string>): (r: seq<string>)
    ensures |r| == |filter|
  {
    Seqs.Map(Lower, filter)
  }

  /** `p.name.lower()` on a rendition without a `NAME` raises `AttributeError`. */
  datatype ScriptError = MissingName

  predicate IsAkSubtitles(m: Hls.Media) {
    m.mediaType == Some("SUBTITLES") && m.groupId == Some("subtitles_ak")
  }

  /**
   * The rendition test of `get_subtitles`, over the lowercased filter, with
   * Python's left-to-right short-circuit: the name is only read when the
   * filter is non-empty and the language code is not in it.
   */
  function IsWanted(m: Hls.Media, filter: seq<string>): (r: Result<bool, ScriptError>)
    ensures r.Err? <==> IsAkSubtitles(m) && |filter| > 0 && !(m.language.Some? && m.language.value in filter) && m.name.None?
    ensures r == Ok(true) <==> (IsAkSubtitles(m) && (|filter| == 0 || (m.language.Some? && m.language.value in filter)
      || (m.name.Some? && Lower(m.name.value) in filter)))
  {
    if !IsAkSubtitles(m) then Ok(false)
    else if |filter| == 0 then Ok(true)
    else if m.language.Some? && m.language.value in filter then Ok(true)
    else if m.name.None? then Err(MissingName)
    else Ok(Lower(m.name.value) in filter)
  }

  /** The tuple kept per rendition: playlist URL, language code, and whether it is forced. */
  datatype Rendition = Rendition(uri: Option<string>, language: Option<string>, isForced: bool)

  function RenditionOf(m: Hls.Media): (r: Rendition)
    ensures r.isForced <==> m.forced == Some("YES")
  {
    Rendition(m.uri, m.language, m.forced == Some("YES"))
  }

  /** The selection loop over the playlist's renditions; the first raising test ends it. */
  function SubtitlesPlaylists(media: seq<Hls.Media>, filter: seq<string>): (r: Result<seq<Rendition>, ScriptError>)
    ensures r.Err? <==> exists i :: 0 <= i < |media| && IsWanted(media[i], filter).Err?
    ensures r.Ok? ==> |r.value| <= |media|
    ensures r.Ok? ==> forall x :: x in r.value ==> exists m :: m in media && IsWanted(m, filter) == Ok(true) && x == RenditionOf(m)
    ensures r.Ok? ==> forall m :: m in media && IsWanted(m, filter) == Ok(true) ==> RenditionOf(m) in r.value
    decreases |media|
  {
    if |media| == 0 then Ok([])
    else
      assert forall x :: x in media[1..] ==> x in media;
      assert forall i :: 0 < i < |media| ==> media[i] == media[1..][i - 1];
      var wanted :- IsWanted(media[0], filter);
      var rest :- SubtitlesPlaylists(media[1..], filter);
      Ok(if wanted then [RenditionOf(media[0])] + rest else rest)
  }

  /** With an empty filter nothing raises, and every `subtitles_ak` subtitles rendition is kept. */
  lemma EmptyFilterNeverFails(media: seq<Hls.Media>)
    ensures SubtitlesPlaylists(media, []).Ok?
    ensures forall m :: m in media && IsAkSubtitles(m) ==> RenditionOf(m) in SubtitlesPlaylists(media, []).value
  {
  }

  /** A configured name selects renditions whatever the case of either side. */
  lemma NameIgnoresCase(m: Hls.Media, config: seq<string>, i: nat)
    requires IsAkSubtitles(m) && i < |config| && m.name.Some? && Lower(m.name.value) == Lower(config[i])
    ensures IsWanted(m, LowerFilter(config)) == Ok(true)
  {
    assert LowerFilter(config)[i] == Lower(config[i]);
  }

  /** What the script keeps is also yielded by the later scraper's `find_matching_subtitles` under an empty filter. */
  lemma WantedIsITunesSubtitles(m: Hls.Media, filter: seq<string>)
    requires IsWanted(m, filter) == Ok(true)
    ensures ITunes.IsITunesSubtitles(m)
  {
  }
}
