/**
 * Rendition selection of `HLSScraper`: the subtitles type of a media entry
 * and the case-insensitive attribute filters of `get_media_playlists`.
 *
 * A media entry is the `#EXT-X-MEDIA` tag of section 4.3.4.1 of RFC 8216
 * as the m3u8 library exposes it: a record of optional attribute strings.
 */
module Hls {
  import opened Results
  import opened Strings
  import Seqs
  import Utils

  /** An `#EXT-X-MEDIA` entry; an attribute missing from the tag is `None`. */
  datatype Media = Media(
    assocLanguage: Option<string>,
    autoselect: Option<string>,
    characteristics: Option<string>,
    channels: Option<string>,
    isDefault: Option<string>,
    forced: Option<string>,
    groupId: Option<string>,
    instreamId: Option<string>,
    language: Option<string>,
    name: Option<string>,
    stableRenditionId: Option<string>,
    mediaType: Option<string>,
    uri: Option<string>)

  /** `HLSScraper.M3U8Attribute`. */
  datatype Attribute =
    | AssocLanguage | Autoselect | Characteristics | Channels | Default | Forced
    | GroupId | InstreamId | Language | Name | StableRenditionId | Type

  /** The enum value: the attribute's name in the config. */
  function ConfigName(a: Attribute): string {
    match a
    case AssocLanguage => "assoc-language"
    case Autoselect => "autoselect"
    case Characteristics => "characteristics"
    case Channels => "channels"
    case Default => "default"
    case Forced => "forced"
    case GroupId => "group-id"
    case InstreamId => "instream-id"
    case Language => "language"
    case Name => "name"
    case StableRenditionId => "stable-rendition-id"
    case Type => "type"
  }

  /** `M3U8Attribute(name)`: the member whose value is `name`; Python raises `ValueError` for any other name. */
  function AttributeNamed(name: string): (r: Option<Attribute>)
    ensures r.Some? ==> ConfigName(r.value) == name
    ensures r.None? ==> forall a: Attribute :: ConfigName(a) != name
  {
    if name == "assoc-language" then Some(AssocLanguage)
    else if name == "autoselect" then Some(Autoselect)
    else if name == "characteristics" then Some(Characteristics)
    else if name == "channels" then Some(Channels)
    else if name == "default" then Some(Default)
    else if name == "forced" then Some(Forced)
    else if name == "group-id" then Some(GroupId)
    else if name == "instream-id" then Some(InstreamId)
    else if name == "language" then Some(Language)
    else if name == "name" then Some(Name)
    else if name == "stable-rendition-id" then Some(StableRenditionId)
    else if name == "type" then Some(Type)
    else None
  }

  /** Every attribute is found again by its config name. */
  lemma AttributeNamedConfigName(a: Attribute)
    ensures AttributeNamed(ConfigName(a)) == Some(a)
  {
  }

  /** `getattr(media, member.name.lower(), None)`. */
  function AttributeOf(m: Media, a: Attribute): Option<string> {
    match a
    case AssocLanguage => m.assocLanguage
    case Autoselect => m.autoselect
    case Characteristics => m.characteristics
    case Channels => m.channels
    case Default => m.isDefault
    case Forced => m.forced
    case GroupId => m.groupId
    case InstreamId => m.instreamId
    case Language => m.language
    case Name => m.name
    case StableRenditionId => m.stableRenditionId
    case Type => m.mediaType
  }

  /** The characteristics tag of closed captions. */
  const Accessibility := "public.accessibility"

  /**
   * `detect_subtitles_type`: forced wins over closed captions; plain
   * subtitles have no special type.
   */
  function DetectSubtitlesType(m: Media): (r: Option<Utils.SubtitlesType>)
    ensures r == Some(Utils.Forced) <==> m.forced == Some("YES")
    ensures r == Some(Utils.ClosedCaptions) <==>
      m.forced != Some("YES") && m.characteristics.Some? && Contains(m.characteristics.value, Accessibility)
    ensures r.None? <==>
      m.forced != Some("YES") && !(m.characteristics.Some? && Contains(m.characteristics.value, Accessibility))
  {
    if m.forced == Some("YES") then Some(Utils.Forced)
    else if m.characteristics.Some? && Contains(m.characteristics.value, Accessibility) then Some(Utils.ClosedCaptions)
    else None
  }

  // ---------------------------------------------------------------- filters

  /** Filters by config attribute name: a string or a list of strings each. */
  type Filters = map<string, Utils.Value<string>>

  /** The value test of one filter on a present attribute, ignoring case. */
  predicate ValueMatches(value: string, filter: Utils.Value<string>) {
    match filter
    case Single(f) => Lower(f) == Lower(value)
    case List(fs) => Lower(value) in Seqs.Map(Lower, fs)
  }

  /**
   * One filter passes: its name is an attribute, the entry has that
   * attribute, and the value matches. An unknown name raises inside the
   * `try`, which marks the entry invalid.
   */
  predicate Matches(m: Media, name: string, filter: Utils.Value<string>) {
    match AttributeNamed(name)
    case None => false
    case Some(a) => AttributeOf(m, a).Some? && ValueMatches(AttributeOf(m, a).value, filter)
  }

  /** Every filter passes. */
  predicate Keeps(m: Media, filters: Filters) {
    forall name :: name in filters ==> Matches(m, name, filters[name])
  }

  /**
   * The loop over the filters of one entry: an unknown name marks the entry
   * invalid and goes on, a failing value test marks it invalid and stops.
   */
  method CheckFilters(m: Media, filters: Filters) returns (valid: bool)
    ensures valid <==> Keeps(m, filters)
  {
    valid := true;
    var remaining := filters.Keys;
    while remaining != {}
      invariant remaining <= filters.Keys
      invariant valid <==> forall k :: k in filters && k !in remaining ==> Matches(m, k, filters[k])
      decreases |remaining|
    {
      var name :| name in remaining;
      match AttributeNamed(name) {
        case None =>
          valid := false;
        case Some(a) =>
          var value := AttributeOf(m, a);
          if value.None? || !ValueMatches(value.value, filters[name]) {
            assert !Matches(m, name, filters[name]);
            return false;
          }
      }
      remaining := remaining - {name};
    }
  }

  /** The test as a function value, for `Seqs.Filter`. */
  function KeepTest(filters: Filters): Media -> bool {
    m => Keeps(m, filters)
  }

  /**
   * The filters in use: the call's and the config's, skipping absent or
   * empty ones, merged with `merge_dict_values`.
   */
  function MergedFilters(playlistFilters: Option<Filters>, configFilters: Option<Filters>): Filters {
    Utils.MergeDictValues(GivenFilters(playlistFilters, configFilters))
  }

  /** The call's and the config's filter dictionaries, absent or empty ones skipped. */
  function GivenFilters(playlistFilters: Option<Filters>, configFilters: Option<Filters>): seq<Filters> {
    (if playlistFilters.Some? && |playlistFilters.value| > 0 then [playlistFilters.value] else [])
    + (if configFilters.Some? && |configFilters.value| > 0 then [configFilters.value] else [])
  }

  /** The entries `get_media_playlists` returns for a given merged filter dictionary. */
  function Selected(media: seq<Media>, filters: Filters): seq<Media> {
    if |filters| == 0 then media else Seqs.Filter(KeepTest(filters), media)
  }

  /** `get_media_playlists`: the entries of the playlist that pass every merged filter, in playlist order. */
  method GetMediaPlaylists(media: seq<Media>, playlistFilters: Option<Filters>, configFilters: Option<Filters>)
    returns (results: seq<Media>)
    ensures results == Selected(media, MergedFilters(playlistFilters, configFilters))
  {
    var filters := MergedFilters(playlistFilters, configFilters);
    if |filters| == 0 {
      return media;
    }
    results := FilterMedia(media, filters);
  }

  /** The loop over the entries, each checked against every filter. */
  method FilterMedia(media: seq<Media>, filters: Filters) returns (results: seq<Media>)
    ensures results == Seqs.Filter(KeepTest(filters), media)
  {
    results := [];
    for i := 0 to |media|
      invariant results == Seqs.Filter(KeepTest(filters), media[..i])
    {
      var valid := CheckFilters(media[i], filters);
      FilterStep(KeepTest(filters), media, i);
      if valid {
        results := results + [media[i]];
      }
    }
    assert media[..|media|] == media;
  }

  lemma FilterStep(p: Media -> bool, media: seq<Media>, i: nat)
    requires i < |media|
    ensures Seqs.Filter(p, media[..i + 1]) == Seqs.Filter(p, media[..i]) + (if p(media[i]) then [media[i]] else [])
  {
    assert media[..i + 1] == media[..i] + [media[i]];
    Seqs.FilterConcat(p, media[..i], [media[i]]);
  }

  // ---------------------------------------------------------------- properties

  /** With no filters, every entry is returned, in order. */
  lemma NoFiltersKeepAll(media: seq<Media>)
    ensures Selected(media, map[]) == media
  {
  }

  /** With filters, an entry is returned iff it passes every filter. */
  lemma SelectedIff(media: seq<Media>, filters: Filters, m: Media)
    requires |filters| > 0
    ensures m in Selected(media, filters) <==> m in media && Keeps(m, filters)
  {
    assert KeepTest(filters)(m) == Keeps(m, filters);
  }

  /** The result is an order-preserving selection of the playlist's entries. */
  lemma SelectedIsSubsequence(media: seq<Media>, filters: Filters)
    ensures Seqs.IsSubsequence(Selected(media, filters), media)
  {
    if |filters| == 0 {
      SubsequenceRefl(media);
    } else {
      Seqs.FilterIsSubsequence(KeepTest(filters), media);
    }
  }

  lemma {:induction false} SubsequenceRefl(xs: seq<Media>)
    ensures Seqs.IsSubsequence(xs, xs)
    decreases |xs|
  {
    if |xs| > 0 {
      SubsequenceRefl(xs[1..]);
    }
  }

  /** A filter under a name that is not an attribute excludes every entry. */
  lemma UnknownNameExcludesAll(media: seq<Media>, filters: Filters, name: string)
    requires name in filters && AttributeNamed(name).None?
    ensures Selected(media, filters) == []
  {
    assert forall m :: !KeepTest(filters)(m) by {
      forall m
        ensures !KeepTest(filters)(m)
      {
        assert !Matches(m, name, filters[name]);
      }
    }
    NoneKept(KeepTest(filters), media);
  }

  /** An entry without the filtered attribute is excluded. */
  lemma MissingAttributeExcludes(media: seq<Media>, filters: Filters, a: Attribute, m: Media)
    requires ConfigName(a) in filters && AttributeOf(m, a).None?
    ensures m !in Selected(media, filters)
  {
    AttributeNamedConfigName(a);
    assert !Matches(m, ConfigName(a), filters[ConfigName(a)]);
    SelectedIff(media, filters, m);
  }

  lemma {:induction false} NoneKept(p: Media -> bool, xs: seq<Media>)
    requires forall m :: !p(m)
    ensures Seqs.Filter(p, xs) == []
    decreases |xs|
  {
    if |xs| > 0 {
      NoneKept(p, xs[1..]);
    }
  }

  /** The comparison ignores case: filter values equal up to case select the same entries. */
  lemma FilterIgnoresCase(m: Media, name: string, f: string, g: string)
    requires Lower(f) == Lower(g)
    ensures Matches(m, name, Utils.Single(f)) == Matches(m, name, Utils.Single(g))
  {
  }

  /** A list filter passes iff one of its values passes as a single filter. */
  lemma ListFilterIsAnyOf(value: string, fs: seq<string>)
    ensures ValueMatches(value, Utils.List(fs)) <==> exists i :: 0 <= i < |fs| && ValueMatches(value, Utils.Single(fs[i]))
  {
    var lowered := Seqs.Map(Lower, fs);
    if Lower(value) in lowered {
      var i :| 0 <= i < |lowered| && lowered[i] == Lower(value);
      assert ValueMatches(value, Utils.Single(fs[i]));
    }
  }

  /** A filter value passes iff one of the items it holds passes, ignoring case. */
  lemma ValueMatchesSomeItem(value: string, f: Utils.Value<string>)
    ensures ValueMatches(value, f) <==> exists x <- Utils.Items(f) :: Lower(x) == Lower(value)
  {
    if f.List? {
      var lowered := Seqs.Map(Lower, f.items);
      if Lower(value) in lowered {
        var i :| 0 <= i < |lowered| && lowered[i] == Lower(value);
        assert f.items[i] in Utils.Items(f);
      }
    }
  }

  /** The filters merged without repeated items. */
  function MergedFiltersDistinct(playlistFilters: Option<Filters>, configFilters: Option<Filters>): Filters {
    Utils.MergeDictValuesDistinct(GivenFilters(playlistFilters, configFilters))
  }

  /**
   * The items `merge_dict_values` repeats make no difference here: merging
   * without repeats selects the same entries.
   */
  lemma DistinctMergeSelectsAlike(media: seq<Media>, playlistFilters: Option<Filters>, configFilters: Option<Filters>)
    ensures Selected(media, MergedFiltersDistinct(playlistFilters, configFilters))
         == Selected(media, MergedFilters(playlistFilters, configFilters))
  {
    var ds := GivenFilters(playlistFilters, configFilters);
    var f := MergedFilters(playlistFilters, configFilters);
    var g := MergedFiltersDistinct(playlistFilters, configFilters);
    forall k
      ensures k in g <==> k in f
      ensures k in f ==> forall x :: x in Utils.Items(g[k]) <==> x in Utils.Items(f[k])
    {
      Utils.MergeDictValuesDistinctAgrees(ds, k);
    }
    assert g.Keys == f.Keys;
    forall i | 0 <= i < |media|
      ensures KeepTest(g)(media[i]) == KeepTest(f)(media[i])
    {
      forall name | name in f
        ensures Matches(media[i], name, g[name]) == Matches(media[i], name, f[name])
      {
        var a := AttributeNamed(name);
        if a.Some? && AttributeOf(media[i], a.value).Some? {
          var value := AttributeOf(media[i], a.value).value;
          ValueMatchesSomeItem(value, g[name]);
          ValueMatchesSomeItem(value, f[name]);
        }
      }
    }
    Seqs.FilterCongruent(KeepTest(g), KeepTest(f), media);
  }
}
