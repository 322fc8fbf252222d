/**
 * The pure helpers of `isubrip/utils.py`: title standardisation and release
 * names, descriptions, dictionary merging, URL parameters, first-valid
 * selection, config-name normalisation and non-conflicting file paths.
 *
 * The title replacement table, the platform test and the Windows reserved
 * names are parameters (`TitleRules`); file existence is a set of paths.
 */
module Utils {
  import opened Results
  import opened Strings
  import Seqs

  // ---------------------------------------------------------------- titles

  predicate IsDot(c: char) {
    c == '.'
  }

  /** No `..` anywhere. */
  predicate NoDoubleDots(s: string) {
    forall i :: 0 <= i < |s| - 1 ==> !(s[i] == '.' && s[i + 1] == '.')
  }

  /**
   * `re.sub(r"\.+", ".", s)`: every run of dots becomes one dot. The first
   * and last characters are kept, so the result is as stripped as the input.
   */
  function CollapseDots(s: string): (r: string)
    ensures |r| <= |s|
    ensures |s| > 0 ==> |r| > 0 && r[0] == s[0] && r[|r| - 1] == s[|s| - 1]
    ensures NoDoubleDots(r)
    decreases |s|
  {
    if |s| == 0 then ""
    else if |s| > 1 && s[0] == '.' && s[1] == '.' then CollapseDots(s[1..])
    else [s[0]] + CollapseDots(s[1..])
  }

  /** Collapsing removes dots only: every other character stays, in order. */
  lemma {:induction false} CollapseDotsKeepsText(s: string)
    ensures Without(CollapseDots(s), ['.']) == Without(s, ['.'])
    decreases |s|
  {
    if |s| > 0 {
      CollapseDotsKeepsText(s[1..]);
      if !(|s| > 1 && s[0] == '.' && s[1] == '.') {
        WithoutConcat([s[0]], CollapseDots(s[1..]), ['.']);
      }
    }
  }

  /** A text without `..` is left as it is. */
  lemma {:induction false} CollapseDotsIdentity(s: string)
    requires NoDoubleDots(s)
    ensures CollapseDots(s) == s
    decreases |s|
  {
    if |s| > 0 {
      assert NoDoubleDots(s[1..]) by {
        forall i | 0 <= i < |s[1..]| - 1
          ensures !(s[1..][i] == '.' && s[1..][i + 1] == '.')
        {
          assert s[1..][i] == s[i + 1] && s[1..][i + 1] == s[i + 2];
        }
      }
      CollapseDotsIdentity(s[1..]);
    }
  }

  /** `for old, new in TITLE_REPLACEMENT_STRINGS.items(): s = s.replace(old, new)`. */
  function ReplaceAll(s: string, table: seq<(string, string)>): string
    decreases |table|
  {
    if |table| == 0 then s else ReplaceAll(Replace(s, table[0].0, table[0].1), table[1..])
  }

  /**
   * What `standardize_title` takes from its environment: the replacement
   * table in dictionary order, whether the platform is Windows, and the
   * reserved Windows file names.
   */
  datatype TitleRules = TitleRules(replacements: seq<(string, string)>, windows: bool, reserved: seq<string>)

  /**
   * `standardize_title`: strip, apply the replacements, collapse dot runs;
   * on Windows a reserved first dot-separated part is rewritten.
   */
  function StandardizeTitle(title: string, rules: TitleRules): (r: string)
    ensures !rules.windows ==> NoDoubleDots(r)
    ensures !rules.windows && |rules.replacements| == 0 ==> |r| == 0 || (!IsSpace(r[0]) && !IsSpace(r[|r| - 1]))
  {
    var t := CollapseDots(ReplaceAll(Strip(title), rules.replacements));
    if rules.windows then
      var parts := Split(t, ".");
      if Upper(parts[0]) in rules.reserved then
        if |parts| > 1 then parts[0] + parts[1] + Join(parts[2..], ".") else "_" + t
      else t
    else t
  }

  // ---------------------------------------------------------------- release names

  /** `SubtitlesType` of `isubrip/data_structures.py`. */
  datatype SubtitlesType = ClosedCaptions | Forced

  function TypeValue(t: SubtitlesType): string {
    match t
    case ClosedCaptions => "CC"
    case Forced => "Forced"
  }

  /** `SubtitlesFormatType` with its file extension. */
  datatype SubtitlesFormat = SubRipFormat | WebVttFormat

  function Extension(f: SubtitlesFormat): string {
    match f
    case SubRipFormat => "srt"
    case WebVttFormat => "vtt"
  }

  /** A `datetime` (whose year is used) or a plain year. */
  datatype ReleaseDate = DateTime(year: int) | Year(year: int)

  datatype AdditionalInfo = InfoText(text: string) | InfoList(items: seq<string>)

  datatype FileFormat = FormatText(text: string) | FormatOf(format: SubtitlesFormat)

  /** The arguments of `format_release_name`; `None` is `Option.None`. */
  datatype Release = Release(
    title: string,
    releaseDate: Option<ReleaseDate>,
    seasonNumber: Option<int>,
    episodeNumber: Option<int>,
    episodeName: Option<string>,
    mediaSource: Option<string>,
    sourceType: Option<string>,
    additionalInfo: Option<AdditionalInfo>,
    languageCode: Option<string>,
    subtitlesType: Option<SubtitlesType>,
    fileFormat: Option<FileFormat>)

  /** The default of the `source_type` argument. */
  const DefaultSourceType: Option<string> := Some("WEB")

  /** `f"{n:02}"`: zero-padded to two characters; negative numbers keep their sign. */
  function Pad2Int(n: int): (r: string)
    ensures |r| >= 2
  {
    if 0 <= n < 10 then "0" + NatToString(n) else IntToString(n)
  }

  /** A standardised title without trailing dots. */
  function TitlePart(title: string, rules: TitleRules): (r: string)
    ensures |r| == 0 || r[|r| - 1] != '.'
  {
    var r := RStrip(StandardizeTitle(title, rules), IsDot);
    assert |r| == 0 || !IsDot(r[|r| - 1]);
    r
  }

  /** `.{year}` when a release date is given. */
  function YearPart(rel: Release): Option<string> {
    if rel.releaseDate.Some? then Some(IntToString(rel.releaseDate.value.year)) else None
  }

  /** `.S{season:02}E{episode:02}`, present exactly when both numbers are given. */
  function EpisodeTag(rel: Release): (r: Option<string>)
    ensures r.Some? <==> rel.seasonNumber.Some? && rel.episodeNumber.Some?
    ensures r.Some? ==> StartsWith(r.value, "S" + Pad2Int(rel.seasonNumber.value) + "E")
  {
    if rel.seasonNumber.Some? && rel.episodeNumber.Some?
    then Some("S" + Pad2Int(rel.seasonNumber.value) + "E" + Pad2Int(rel.episodeNumber.value))
    else None
  }

  function InfoPart(rel: Release): Option<string> {
    match rel.additionalInfo
    case Some(InfoText(t)) => Some(t)
    case Some(InfoList(xs)) => Some(Join(xs, "."))
    case None => None
  }

  function FormatPart(rel: Release): Option<string> {
    match rel.fileFormat
    case Some(FormatText(t)) => Some(t)
    case Some(FormatOf(f)) => Some(Extension(f))
    case None => None
  }

  /**
   * The parts that may follow the title, in the order the name lists them:
   * year, `SxxEyy`, episode name, media source, source type, additional
   * info, language code, lowercased type, file extension.
   */
  function Components(rel: Release, rules: TitleRules): seq<Option<string>> {
    [ YearPart(rel),
      EpisodeTag(rel),
      if rel.episodeName.Some? then Some(TitlePart(rel.episodeName.value, rules)) else None,
      rel.mediaSource,
      rel.sourceType,
      InfoPart(rel),
      rel.languageCode,
      if rel.subtitlesType.Some? then Some(Lower(TypeValue(rel.subtitlesType.value))) else None,
      FormatPart(rel) ]
  }

  /** The given parts, in order. */
  function Present(parts: seq<Option<string>>): (r: seq<string>)
    ensures |r| <= |parts|
    decreases |parts|
  {
    if |parts| == 0 then []
    else (if parts[0].Some? then [parts[0].value] else []) + Present(parts[1..])
  }

  /** `if part is not None: name += f".{part}"` for each part in turn. */
  function ExtendAll(name: string, parts: seq<Option<string>>): string
    decreases |parts|
  {
    if |parts| == 0 then name
    else ExtendAll(if parts[0].Some? then name + "." + parts[0].value else name, parts[1..])
  }

  lemma {:induction false} ExtendAllJoins(xs: seq<string>, parts: seq<Option<string>>)
    requires |xs| > 0
    ensures ExtendAll(Join(xs, "."), parts) == Join(xs + Present(parts), ".")
    decreases |parts|
  {
    if |parts| == 0 {
      assert xs + Present(parts) == xs;
    } else {
      var rest := Present(parts[1..]);
      if parts[0].Some? {
        var v := parts[0].value;
        JoinAppend(xs, v, ".");
        ExtendAllJoins(xs + [v], parts[1..]);
        assert (xs + [v]) + rest == xs + Present(parts);
      } else {
        ExtendAllJoins(xs, parts[1..]);
        assert Present(parts) == rest;
      }
    }
  }

  /**
   * `format_release_name`: the standardised title without trailing dots,
   * then every given component in the fixed order, each behind a `.`.
   */
  function FormatReleaseName(rel: Release, rules: TitleRules): (r: string)
    ensures r == Join([TitlePart(rel.title, rules)] + Present(Components(rel, rules)), ".")
    ensures StartsWith(r, TitlePart(rel.title, rules))
  {
    var title := TitlePart(rel.title, rules);
    ExtendAllJoins([title], Components(rel, rules));
    var r := ExtendAll(title, Components(rel, rules));
    JoinStarts([title] + Present(Components(rel, rules)), ".");
    r
  }

  /** With every optional argument `None`, the name is the title part alone. */
  lemma FormatReleaseNameTitleOnly(title: string, rules: TitleRules)
    ensures FormatReleaseName(Release(title, None, None, None, None, None, None, None, None, None, None), rules)
         == TitlePart(title, rules)
  {
    var rel := Release(title, None, None, None, None, None, None, None, None, None, None);
    var parts := Components(rel, rules);
    assert forall i :: 0 <= i < |parts| ==> parts[i].None?;
    PresentOfNone(parts);
  }

  lemma {:induction false} PresentOfNone(parts: seq<Option<string>>)
    requires forall i :: 0 <= i < |parts| ==> parts[i].None?
    ensures Present(parts) == []
    decreases |parts|
  {
    if |parts| > 0 {
      PresentOfNone(parts[1..]);
    }
  }

  // ---------------------------------------------------------------- descriptions

  /**
   * `format_subtitles_description`: `name (code)` when a non-empty name is
   * given and the bare code otherwise, then ` [CC]` or ` [Forced]` when a
   * special type is given.
   */
  function FormatSubtitlesDescription(code: string, name: Option<string>, special: Option<SubtitlesType>): (r: string)
    ensures name.Some? && |name.value| > 0 ==> StartsWith(r, name.value + " (" + code + ")")
    ensures !(name.Some? && |name.value| > 0) ==> StartsWith(r, code)
    ensures special.None? ==> r == (if name.Some? && |name.value| > 0 then name.value + " (" + code + ")" else code)
    ensures special.Some? ==> (|r| >= |TypeValue(special.value)| + 3
      && r[|r| - |TypeValue(special.value)| - 3..] == " [" + TypeValue(special.value) + "]")
  {
    var language := if name.Some? && |name.value| > 0 then name.value + " (" + code + ")" else code;
    if special.Some? then language + " [" + TypeValue(special.value) + "]" else language
  }

  /** The ` [type]` suffix of a description split off: the rest and the type it names, if any. */
  function SplitSpecial(r: string): (parts: (string, Option<SubtitlesType>)) {
    if EndsWith(r, " [CC]") then (r[..|r| - 5], Some(ClosedCaptions))
    else if EndsWith(r, " [Forced]") then (r[..|r| - 9], Some(Forced))
    else (r, None)
  }

  /** The name in front of a trailing ` (code)`, unless the text is the bare code. */
  function SplitName(code: string, language: string): Option<string> {
    var suffix := " (" + code + ")";
    if language != code && EndsWith(language, suffix) then Some(language[..|language| - |suffix|]) else None
  }

  /** A description read back: the special type first, then the name. */
  function ParseSubtitlesDescription(code: string, r: string): (parts: (Option<string>, Option<SubtitlesType>)) {
    (SplitName(code, SplitSpecial(r).0), SplitSpecial(r).1)
  }

  lemma SplitSpecialOfPlain(language: string)
    requires language == [] || language[|language| - 1] != ']'
    ensures SplitSpecial(language) == (language, None)
  {
    if EndsWith(language, " [CC]") {
      EndsWithLast(language, " [CC]");
    }
    if EndsWith(language, " [Forced]") {
      EndsWithLast(language, " [Forced]");
    }
  }

  lemma EndsWithLast(s: string, p: string)
    requires |p| > 0 && EndsWith(s, p)
    ensures s[|s| - 1] == p[|p| - 1]
  {
    assert s[|s| - |p|..][|p| - 1] == s[|s| - 1];
  }

  lemma SplitSpecialOfType(language: string, t: SubtitlesType)
    ensures SplitSpecial(language + " [" + TypeValue(t) + "]") == (language, Some(t))
  {
    if t == ClosedCaptions {
      assert language + " [" + TypeValue(t) + "]" == language + " [CC]";
      SplitClosedCaptions(language);
    } else {
      assert language + " [" + TypeValue(t) + "]" == language + " [Forced]";
      SplitForced(language);
    }
  }

  lemma SplitClosedCaptions(language: string)
    ensures SplitSpecial(language + " [CC]") == (language, Some(ClosedCaptions))
  {
    var r := language + " [CC]";
    assert r[|r| - 5..] == " [CC]" && r[..|r| - 5] == language;
  }

  lemma SplitForced(language: string)
    ensures SplitSpecial(language + " [Forced]") == (language, Some(Forced))
  {
    var r := language + " [Forced]";
    assert r[|r| - 5..] == "rced]";
    assert r[|r| - 9..] == " [Forced]" && r[..|r| - 9] == language;
  }

  lemma SplitNameOf(code: string, name: Option<string>)
    ensures var named := name.Some? && |name.value| > 0;
      SplitName(code, if named then name.value + " (" + code + ")" else code) == (if named then name else None)
  {
    if name.Some? && |name.value| > 0 {
      var language := name.value + " (" + code + ")";
      assert language[|language| - |code| - 3..] == " (" + code + ")";
      assert language[..|language| - |code| - 3] == name.value;
    }
  }

  /**
   * The bracketed suffix appears exactly when a special type is given, and a
   * name appears exactly when a non-empty one is given: both read back from
   * the description of any language code that does not end in `]`.
   */
  lemma DescriptionRoundTrip(code: string, name: Option<string>, special: Option<SubtitlesType>)
    requires code == [] || code[|code| - 1] != ']'
    ensures ParseSubtitlesDescription(code, FormatSubtitlesDescription(code, name, special))
         == (if name.Some? && |name.value| > 0 then name else None, special)
  {
    var named := name.Some? && |name.value| > 0;
    var language := if named then name.value + " (" + code + ")" else code;
    assert language == [] || language[|language| - 1] != ']';
    if special.Some? {
      assert FormatSubtitlesDescription(code, name, special) == language + " [" + TypeValue(special.value) + "]";
      SplitSpecialOfType(language, special.value);
    } else {
      assert FormatSubtitlesDescription(code, name, special) == language;
      SplitSpecialOfPlain(language);
    }
    SplitNameOf(code, name);
  }

  // ---------------------------------------------------------------- merging dictionaries

  /** A dictionary value: a single item or a list of items (no nesting). */
  datatype Value<T> = Single(item: T) | List(items: seq<T>)

  /** The items a value stands for. */
  function Items<T>(v: Value<T>): seq<T> {
    match v
    case Single(x) => [x]
    case List(xs) => xs
  }

  /**
   * A key found twice: a list is extended or appended to, a single item
   * becomes the list of both.
   */
  function Combine<T>(before: Value<T>, added: Value<T>): (r: Value<T>)
    ensures r.List? && Items(r) == Items(before) + Items(added)
  {
    match (before, added)
    case (List(xs), List(ys)) => List(xs + ys)
    case (List(xs), Single(y)) => List(xs + [y])
    case (Single(x), List(ys)) => List([x] + ys)
    case (Single(x), Single(y)) => List([x, y])
  }

  /** One dictionary merged into the result so far. */
  function MergeInto<K, T>(acc: map<K, Value<T>>, d: map<K, Value<T>>): (r: map<K, Value<T>>)
    ensures r.Keys == acc.Keys + d.Keys
  {
    map k | k in acc.Keys + d.Keys :: if k in d then (if k in acc then Combine(acc[k], d[k]) else d[k]) else acc[k]
  }

  /** The loop over the dictionaries, first to last. */
  function MergeAll<K, T>(ds: seq<map<K, Value<T>>>): map<K, Value<T>>
    decreases |ds|
  {
    if |ds| == 0 then map[] else MergeInto(MergeAll(ds[..|ds| - 1]), ds[|ds| - 1])
  }

  /** The non-empty dictionaries, in order. */
  function NonEmpty<K, T(==)>(ds: seq<map<K, Value<T>>>): (r: seq<map<K, Value<T>>>)
    ensures forall i :: 0 <= i < |r| ==> |r[i]| > 0
  {
    var r := Seqs.Filter((d: map<K, Value<T>>) => |d| > 0, ds);
    assert forall i :: 0 <= i < |r| ==> r[i] in r;
    r
  }

  /** `merge_dict_values(*ds)`. */
  function MergeDictValues<K, T(==)>(ds: seq<map<K, Value<T>>>): (r: map<K, Value<T>>)
    ensures |NonEmpty(ds)| == 0 ==> r == map[]
    ensures |NonEmpty(ds)| == 1 ==> r == NonEmpty(ds)[0]
    ensures r == MergeAll(NonEmpty(ds))
  {
    var nonEmpty := NonEmpty(ds);
    if |nonEmpty| == 0 then map[]
    else if |nonEmpty| == 1 then (MergeAllOne(nonEmpty[0]); assert [nonEmpty[0]] == nonEmpty; nonEmpty[0])
    else MergeAll(nonEmpty)
  }

  /** A single dictionary merges to itself, so the one-dictionary shortcut agrees with the loop. */
  lemma MergeAllOne<K, T>(d: map<K, Value<T>>)
    ensures MergeAll([d]) == d
  {
    assert [d][..0] == [];
  }

  /** How many of the dictionaries hold `k`. */
  function Count<K, T>(ds: seq<map<K, Value<T>>>, k: K): nat
    decreases |ds|
  {
    if |ds| == 0 then 0 else Count(ds[..|ds| - 1], k) + (if k in ds[|ds| - 1] then 1 else 0)
  }

  /** The items of `k` in every dictionary that holds it, in argument order. */
  function Collected<K, T>(ds: seq<map<K, Value<T>>>, k: K): seq<T>
    decreases |ds|
  {
    if |ds| == 0 then []
    else Collected(ds[..|ds| - 1], k) + (if k in ds[|ds| - 1] then Items(ds[|ds| - 1][k]) else [])
  }

  /**
   * The merge keeps every key of every dictionary and no other, collects the
   * items of a key in argument order, and wraps them in a list exactly when
   * the key was found in more than one dictionary.
   */
  lemma {:induction false} MergeAllValues<K, T>(ds: seq<map<K, Value<T>>>, k: K)
    ensures k in MergeAll(ds) <==> Count(ds, k) > 0
    ensures k in MergeAll(ds) ==> Items(MergeAll(ds)[k]) == Collected(ds, k)
    ensures k in MergeAll(ds) ==> (MergeAll(ds)[k].List? || Count(ds, k) == 1)
    ensures Count(ds, k) >= 2 ==> MergeAll(ds)[k].List?
    ensures Count(ds, k) == 0 ==> Collected(ds, k) == []
    decreases |ds|
  {
    if |ds| > 0 {
      var init := ds[..|ds| - 1];
      var d := ds[|ds| - 1];
      MergeAllValues(init, k);
      var m := MergeAll(init);
      if k in d && k in m {
        assert MergeAll(ds)[k] == Combine(m[k], d[k]);
      } else if k in d {
        assert MergeAll(ds)[k] == d[k];
        assert Collected(ds, k) == [] + Items(d[k]);
      } else if k in m {
        assert MergeAll(ds)[k] == m[k];
        assert Collected(ds, k) == Collected(init, k) + [];
      }
    }
  }

  /** A key held by one dictionary only keeps that dictionary's value as it is. */
  lemma {:induction false} MergeAllSingle<K, T>(ds: seq<map<K, Value<T>>>, k: K, i: nat)
    requires i < |ds| && k in ds[i]
    requires forall j :: 0 <= j < |ds| && j != i ==> k !in ds[j]
    ensures k in MergeAll(ds) && MergeAll(ds)[k] == ds[i][k]
    decreases |ds|
  {
    var init := ds[..|ds| - 1];
    if i < |ds| - 1 {
      MergeAllSingle(init, k, i);
    } else {
      MergeAllAbsent(init, k);
    }
  }

  lemma {:induction false} MergeAllAbsent<K, T>(ds: seq<map<K, Value<T>>>, k: K)
    requires forall j :: 0 <= j < |ds| ==> k !in ds[j]
    ensures k !in MergeAll(ds)
    decreases |ds|
  {
    if |ds| > 0 {
      MergeAllAbsent(ds[..|ds| - 1], k);
    }
  }

  /** The example of the docstring: `{'a': 1, 'b': 3}` and `{'a': 2, 'b': 4}` give `{'a': [1, 2], 'b': [3, 4]}`. */
  lemma MergeDictValuesExample()
    ensures MergeDictValues([map["a" := Single(1), "b" := Single(3)], map["a" := Single(2), "b" := Single(4)]])
         == map["a" := List([1, 2]), "b" := List([3, 4])]
  {
    var d1 := map["a" := Single(1), "b" := Single(3)];
    var d2 := map["a" := Single(2), "b" := Single(4)];
    var ds := [d1, d2];
    assert NonEmpty(ds) == ds by {
      Seqs.FilterAll((d: map<string, Value<int>>) => |d| > 0, ds);
    }
    MergeAllTwo(d1, d2);
    MergeExampleStep();
  }

  lemma MergeAllTwo<K, T>(d1: map<K, Value<T>>, d2: map<K, Value<T>>)
    ensures MergeAll([d1, d2]) == MergeInto(d1, d2)
  {
    assert [d1, d2][..1] == [d1];
    MergeAllOne(d1);
  }

  lemma MergeExampleStep()
    ensures MergeInto(map["a" := Single(1), "b" := Single(3)], map["a" := Single(2), "b" := Single(4)])
         == map["a" := List([1, 2]), "b" := List([3, 4])]
  {
    var m := MergeInto(map["a" := Single(1), "b" := Single(3)], map["a" := Single(2), "b" := Single(4)]);
    assert m.Keys == {"a", "b"};
    assert m["a"] == List([1, 2]);
    assert m["b"] == List([3, 4]);
  }

  /**
   * The second example of the docstring promises `{'a': 1, 'b': [2, 3]}` for
   * `{'a': 1, 'b': 2}` and `{'a': 1, 'b': [2, 3]}`; the loop repeats the
   * items both dictionaries hold and gives `{'a': [1, 1], 'b': [2, 2, 3]}`.
   */
  lemma MergeDictValuesSecondExampleAsWritten()
    ensures MergeDictValues([map["a" := Single(1), "b" := Single(2)], map["a" := Single(1), "b" := List([2, 3])]])
         == map["a" := List([1, 1]), "b" := List([2, 2, 3])]
    ensures MergeDictValues([map["a" := Single(1), "b" := Single(2)], map["a" := Single(1), "b" := List([2, 3])]])
         != map["a" := Single(1), "b" := List([2, 3])]
  {
    var d1 := map["a" := Single(1), "b" := Single(2)];
    var d2 := map["a" := Single(1), "b" := List([2, 3])];
    var ds := [d1, d2];
    assert NonEmpty(ds) == ds by {
      Seqs.FilterAll((d: map<string, Value<int>>) => |d| > 0, ds);
    }
    MergeAllTwo(d1, d2);
    MergeSecondExampleStep();
    assert map["a" := List([1, 1]), "b" := List([2, 2, 3])]["a"] != map["a" := Single(1), "b" := List([2, 3])]["a"];
  }

  lemma MergeSecondExampleStep()
    ensures MergeInto(map["a" := Single(1), "b" := Single(2)], map["a" := Single(1), "b" := List([2, 3])])
         == map["a" := List([1, 1]), "b" := List([2, 2, 3])]
  {
    var m := MergeInto(map["a" := Single(1), "b" := Single(2)], map["a" := Single(1), "b" := List([2, 3])]);
    assert m.Keys == {"a", "b"};
    assert m["a"] == List([1, 1]);
    assert [2] + [2, 3] == [2, 2, 3];
    assert m["b"] == List([2, 2, 3]);
  }

  // ---------------------------------------------------------------- merging without repeats

  /** The items of `added` that `before` does not hold yet, in order. */
  function NewItems<T(==)>(before: Value<T>, added: Value<T>): (r: seq<T>)
    ensures forall x <- r :: x in Items(added) && x !in Items(before)
    ensures forall x <- Items(added) :: x !in Items(before) ==> x in r
  {
    Seqs.Filter(y => y !in Items(before), Items(added))
  }

  /**
   * A key found twice, as both docstring examples read: the items not yet
   * held are added, and a value that gains nothing stays as it was.
   */
  function CombineDistinct<T(==)>(before: Value<T>, added: Value<T>): (r: Value<T>)
    ensures Items(before) <= Items(r)
    ensures forall x <- Items(r) :: x in Items(before) || x in Items(added)
    ensures forall x <- Items(added) :: x in Items(r)
    ensures (forall x <- Items(added) :: x in Items(before)) ==> r == before
  {
    var extra := NewItems(before, added);
    assert (forall x <- Items(added) :: x in Items(before)) ==> extra == [] by {
      if extra != [] {
        assert extra[0] in extra;
      }
    }
    if extra == [] then before else List(Items(before) + extra)
  }

  function MergeIntoDistinct<K, T(==)>(acc: map<K, Value<T>>, d: map<K, Value<T>>): (r: map<K, Value<T>>)
    ensures r.Keys == acc.Keys + d.Keys
  {
    map k | k in acc.Keys + d.Keys :: if k in d then (if k in acc then CombineDistinct(acc[k], d[k]) else d[k]) else acc[k]
  }

  function MergeAllDistinct<K, T(==)>(ds: seq<map<K, Value<T>>>): map<K, Value<T>>
    decreases |ds|
  {
    if |ds| == 0 then map[] else MergeIntoDistinct(MergeAllDistinct(ds[..|ds| - 1]), ds[|ds| - 1])
  }

  /** `merge_dict_values` as its docstring describes it: no item is collected twice for a key. */
  function MergeDictValuesDistinct<K, T(==)>(ds: seq<map<K, Value<T>>>): (r: map<K, Value<T>>)
    ensures |NonEmpty(ds)| == 0 ==> r == map[]
    ensures |NonEmpty(ds)| == 1 ==> r == NonEmpty(ds)[0]
  {
    var nonEmpty := NonEmpty(ds);
    if |nonEmpty| == 0 then map[]
    else if |nonEmpty| == 1 then nonEmpty[0]
    else MergeAllDistinct(nonEmpty)
  }

  /** The merge without repeats keeps every key of every dictionary, with exactly the items collected for it. */
  lemma {:induction false} MergeAllDistinctValues<K, T>(ds: seq<map<K, Value<T>>>, k: K)
    ensures k in MergeAllDistinct(ds) <==> Count(ds, k) > 0
    ensures k in MergeAllDistinct(ds) ==> forall x :: x in Items(MergeAllDistinct(ds)[k]) <==> x in Collected(ds, k)
    decreases |ds|
  {
    if |ds| > 0 {
      var init := ds[..|ds| - 1];
      var d := ds[|ds| - 1];
      MergeAllDistinctValues(init, k);
      MergeAllValues(init, k);
      var m := MergeAllDistinct(init);
      if k in d && k in m {
        assert MergeAllDistinct(ds)[k] == CombineDistinct(m[k], d[k]);
      } else if k in d {
        assert MergeAllDistinct(ds)[k] == d[k];
        assert Collected(ds, k) == [] + Items(d[k]);
      } else if k in m {
        assert MergeAllDistinct(ds)[k] == m[k];
        assert Collected(ds, k) == Collected(init, k) + [];
      }
    }
  }

  /**
   * Both docstring examples hold for the merge without repeats:
   * `{'a': [1, 2], 'b': [3, 4]}` and `{'a': 1, 'b': [2, 3]}`.
   */
  lemma MergeDictValuesDistinctExamples()
    ensures MergeDictValuesDistinct([map["a" := Single(1), "b" := Single(3)], map["a" := Single(2), "b" := Single(4)]])
         == map["a" := List([1, 2]), "b" := List([3, 4])]
    ensures MergeDictValuesDistinct([map["a" := Single(1), "b" := Single(2)], map["a" := Single(1), "b" := List([2, 3])]])
         == map["a" := Single(1), "b" := List([2, 3])]
  {
    DistinctTwo(map["a" := Single(1), "b" := Single(3)], map["a" := Single(2), "b" := Single(4)]);
    DistinctFirstExampleStep();
    DistinctTwo(map["a" := Single(1), "b" := Single(2)], map["a" := Single(1), "b" := List([2, 3])]);
    DistinctSecondExampleStep();
  }

  lemma DistinctFirstExampleStep()
    ensures MergeIntoDistinct(map["a" := Single(1), "b" := Single(3)], map["a" := Single(2), "b" := Single(4)])
         == map["a" := List([1, 2]), "b" := List([3, 4])]
  {
    MergeIntoDistinctTwoKeys("a", "b", Single(1), Single(3), Single(2), Single(4));
    CombineSingles(1, 2);
    CombineSingles(3, 4);
  }

  lemma DistinctSecondExampleStep()
    ensures MergeIntoDistinct(map["a" := Single(1), "b" := Single(2)], map["a" := Single(1), "b" := List([2, 3])])
         == map["a" := Single(1), "b" := List([2, 3])]
  {
    MergeIntoDistinctTwoKeys("a", "b", Single(1), Single(2), Single(1), List([2, 3]));
    CombineSingles(1, 1);
    CombineSingleWithPair(2, 3);
  }

  /** Two dictionaries with the same two keys merge key by key. */
  lemma MergeIntoDistinctTwoKeys<K, T>(a: K, b: K, a1: Value<T>, b1: Value<T>, a2: Value<T>, b2: Value<T>)
    requires a != b
    ensures MergeIntoDistinct(map[a := a1, b := b1], map[a := a2, b := b2])
         == map[a := CombineDistinct(a1, a2), b := CombineDistinct(b1, b2)]
  {
    var m := MergeIntoDistinct(map[a := a1, b := b1], map[a := a2, b := b2]);
    assert m.Keys == {a, b};
  }

  lemma CombineSingles<T>(x: T, y: T)
    ensures CombineDistinct(Single(x), Single(y)) == if x == y then Single(x) else List([x, y])
  {
    assert [y][1..] == [];
  }

  lemma CombineSingleWithPair<T>(x: T, y: T)
    requires x != y
    ensures CombineDistinct(Single(x), List([x, y])) == List([x, y])
  {
    var p := z => z !in Items(Single(x));
    assert [x, y][1..] == [y] && [y][1..] == [];
    assert Seqs.Filter(p, [y]) == [y];
    assert Seqs.Filter(p, [x, y]) == [] + Seqs.Filter(p, [y]);
  }

  /** A single dictionary merges to itself. */
  lemma MergeAllDistinctOne<K, T>(d: map<K, Value<T>>)
    ensures MergeAllDistinct([d]) == d
  {
    assert [d][..0] == [];
  }

  /** Two non-empty dictionaries are merged by one step of the loop. */
  lemma DistinctTwo<K, T>(d1: map<K, Value<T>>, d2: map<K, Value<T>>)
    requires |d1| > 0 && |d2| > 0
    ensures MergeDictValuesDistinct([d1, d2]) == MergeIntoDistinct(d1, d2)
  {
    var ds := [d1, d2];
    assert NonEmpty(ds) == ds by {
      Seqs.FilterAll((d: map<K, Value<T>>) => |d| > 0, ds);
    }
    assert MergeDictValuesDistinct(ds) == MergeAllDistinct(ds);
    assert ds[..1] == [d1];
    MergeAllDistinctOne(d1);
  }

  /**
   * The merge as written and the merge without repeats have the same keys,
   * and each key holds the same items, repeats aside.
   */
  lemma MergeDictValuesDistinctAgrees<K, T>(ds: seq<map<K, Value<T>>>, k: K)
    ensures k in MergeDictValuesDistinct(ds) <==> k in MergeDictValues(ds)
    ensures k in MergeDictValues(ds) ==>
      forall x :: x in Items(MergeDictValuesDistinct(ds)[k]) <==> x in Items(MergeDictValues(ds)[k])
  {
    var nonEmpty := NonEmpty(ds);
    if |nonEmpty| >= 2 {
      MergeAllDistinctValues(nonEmpty, k);
      MergeAllValues(nonEmpty, k);
    }
  }

  // ---------------------------------------------------------------- URL parameters

  /** Why `parse_url_params` raises: a parameter that does not split on `=` into exactly two parts. */
  datatype UrlError = BadParameter(param: string)

  /** `key, value = param.split('=')`. */
  predicate IsPair(param: string) {
    |Split(param, "=")| == 2
  }

  /** `{key: value for key, value in (p.split('=') for p in params)}`: a later key overrides an earlier one. */
  function BuildParams(params: seq<string>): (r: Result<map<string, string>, UrlError>)
    ensures r.Ok? <==> forall i :: 0 <= i < |params| ==> IsPair(params[i])
    decreases |params|
  {
    if |params| == 0 then Ok(map[])
    else
      var acc :- BuildParams(params[..|params| - 1]);
      var parts := Split(params[|params| - 1], "=");
      if |parts| != 2 then Err(BadParameter(params[|params| - 1]))
      else Ok(acc[parts[0] := parts[1]])
  }

  predicate IsAmpersand(c: char) {
    c == '&'
  }

  /** The parameter text: after the last `?`, trailing `&` stripped. */
  function QueryOf(url: string): string {
    var pieces := Split(url, "?");
    RStrip(pieces[|pieces| - 1], IsAmpersand)
  }

  /**
   * `parse_url_params`: a single parameter without `=` gives the empty
   * dictionary; otherwise every `&`-separated parameter must be `key=value`.
   */
  function ParseUrlParams(url: string): (r: Result<map<string, string>, UrlError>)
    ensures var params := Split(QueryOf(url), "&");
      r == (if |params| == 1 && '=' !in params[0] then Ok(map[]) else BuildParams(params))
    ensures r.Err? <==> var params := Split(QueryOf(url), "&");
      !(|params| == 1 && '=' !in params[0]) && exists i :: 0 <= i < |params| && !IsPair(params[i])
  {
    var params := Split(QueryOf(url), "&");
    if |params| == 0 || (|params| == 1 && '=' !in params[0]) then Ok(map[])
    else BuildParams(params)
  }

  /** Every key of a parsed parameter list maps to the value of its last occurrence. */
  lemma {:induction false} BuildParamsValues(params: seq<string>, i: nat)
    requires BuildParams(params).Ok? && i < |params|
    requires forall j :: i < j < |params| ==> Split(params[j], "=")[0] != Split(params[i], "=")[0]
    ensures Split(params[i], "=")[0] in BuildParams(params).value
    ensures BuildParams(params).value[Split(params[i], "=")[0]] == Split(params[i], "=")[1]
    decreases |params|
  {
    var init := params[..|params| - 1];
    if i < |params| - 1 {
      assert forall j :: i < j < |init| ==> init[j] == params[j];
      BuildParamsValues(init, i);
    }
  }

  /** The keys of a parsed parameter list are the parameters' keys and nothing else. */
  lemma {:induction false} BuildParamsKeys(params: seq<string>)
    requires BuildParams(params).Ok?
    ensures forall k :: k in BuildParams(params).value <==> exists i :: 0 <= i < |params| && Split(params[i], "=")[0] == k
    decreases |params|
  {
    if |params| > 0 {
      var init := params[..|params| - 1];
      BuildParamsKeys(init);
      assert forall i :: 0 <= i < |init| ==> init[i] == params[i];
    }
  }

  /** The `key=value` texts of a list of pairs. */
  function Params(pairs: seq<(string, string)>): (r: seq<string>)
    ensures |r| == |pairs|
    ensures forall i :: 0 <= i < |pairs| ==> r[i] == pairs[i].0 + "=" + pairs[i].1
  {
    seq(|pairs|, i requires 0 <= i < |pairs| => pairs[i].0 + "=" + pairs[i].1)
  }

  /** `key=value` pairs, `&`-separated. */
  function Encode(pairs: seq<(string, string)>): string {
    Join(Params(pairs), "&")
  }

  predicate PlainText(s: string) {
    '=' !in s && '&' !in s && '?' !in s
  }

  lemma ParamsSplit(pairs: seq<(string, string)>)
    requires forall i :: 0 <= i < |pairs| ==> PlainText(pairs[i].0) && PlainText(pairs[i].1)
    ensures forall i :: 0 <= i < |pairs| ==> '&' !in Params(pairs)[i] && '?' !in Params(pairs)[i] && '=' in Params(pairs)[i]
    ensures forall i :: 0 <= i < |pairs| ==> Split(Params(pairs)[i], "=") == [pairs[i].0, pairs[i].1]
  {
    var params := Params(pairs);
    forall i | 0 <= i < |pairs|
      ensures '&' !in params[i] && '?' !in params[i] && '=' in params[i]
      ensures Split(params[i], "=") == [pairs[i].0, pairs[i].1]
    {
      assert params[i][|pairs[i].0|] == '=';
      SplitAt(pairs[i].0, pairs[i].1, "=");
      SplitWithout(pairs[i].1, "=");
    }
  }

  /** The parameter list read from `base?query` is the encoded list. */
  lemma QueryOfEncoded(base: string, pairs: seq<(string, string)>)
    requires |pairs| > 0
    requires forall i :: 0 <= i < |pairs| ==> PlainText(pairs[i].0) && PlainText(pairs[i].1)
    ensures Split(QueryOf(base + "?" + Encode(pairs)), "&") == Params(pairs)
  {
    var params := Params(pairs);
    var q := Encode(pairs);
    ParamsSplit(pairs);
    JoinFree(params, '&', '?');
    SplitLast(base, q, "?");
    QueryLastChar(params);
    RStripKeeps(q, IsAmpersand);
    assert QueryOf(base + "?" + q) == q;
    SplitOfJoin(params, '&');
  }

  /**
   * Parsing the query of a URL that encodes a non-empty list of pairs gives
   * back every pair, provided keys and values hold none of `=`, `&`, `?` and
   * the keys are distinct.
   */
  lemma ParseEncoded(base: string, pairs: seq<(string, string)>)
    requires |pairs| > 0
    requires forall i :: 0 <= i < |pairs| ==> PlainText(pairs[i].0) && PlainText(pairs[i].1)
    requires forall i, j :: 0 <= i < j < |pairs| ==> pairs[i].0 != pairs[j].0
    ensures ParseUrlParams(base + "?" + Encode(pairs)).Ok?
    ensures forall i :: 0 <= i < |pairs| ==>
      pairs[i].0 in ParseUrlParams(base + "?" + Encode(pairs)).value
      && ParseUrlParams(base + "?" + Encode(pairs)).value[pairs[i].0] == pairs[i].1
  {
    var params := Params(pairs);
    QueryOfEncoded(base, pairs);
    ParamsSplit(pairs);
    assert forall i :: 0 <= i < |params| ==> IsPair(params[i]);
    var r := BuildParams(params);
    assert ParseUrlParams(base + "?" + Encode(pairs)) == r;
    forall i | 0 <= i < |pairs|
      ensures pairs[i].0 in r.value && r.value[pairs[i].0] == pairs[i].1
    {
      BuildParamsValues(params, i);
    }
  }

  /** An encoded query does not end in `&`. */
  lemma QueryLastChar(params: seq<string>)
    requires |params| > 0 && forall i :: 0 <= i < |params| ==> '&' !in params[i] && '=' in params[i]
    ensures var q := Join(params, "&"); |q| > 0 && q[|q| - 1] != '&'
  {
    var q := Join(params, "&");
    var last := params[|params| - 1];
    assert |last| > 0;
    JoinEnds(params, "&");
    assert q[|q| - 1] == last[|last| - 1];
    assert last[|last| - 1] in last;
  }

  /** Joining parts free of two characters with the first one leaves the second one out. */
  lemma {:induction false} JoinFree(parts: seq<string>, c: char, d: char)
    requires c != d && forall i :: 0 <= i < |parts| ==> c !in parts[i] && d !in parts[i]
    ensures d !in Join(parts, [c])
    decreases |parts|
  {
    if |parts| > 1 {
      JoinFree(parts[1..], c, d);
    }
  }

  /** Splitting a join of separator-free parts gives the parts back. */
  lemma {:induction false} SplitOfJoin(parts: seq<string>, c: char)
    requires |parts| > 0 && forall i :: 0 <= i < |parts| ==> c !in parts[i]
    ensures Split(Join(parts, [c]), [c]) == parts
    decreases |parts|
  {
    if |parts| == 1 {
      SplitWithout(parts[0], [c]);
    } else {
      SplitOfJoin(parts[1..], c);
      SplitAt(parts[0], Join(parts[1..], [c]), [c]);
      assert [parts[0]] + parts[1..] == parts;
    }
  }

  /** The last piece of a split is what follows the last separator. */
  lemma {:induction false} SplitLast(a: string, b: string, sep: string)
    requires |sep| == 1 && sep[0] !in b
    ensures var r := Split(a + sep + b, sep); r[|r| - 1] == b
    decreases |a|
  {
    var s := a + sep + b;
    if |a| == 0 {
      assert s == sep + b;
      assert s[..1] == sep;
      assert s[1..] == b;
      SplitWithout(b, sep);
    } else {
      assert s[1..] == a[1..] + sep + b;
      SplitLast(a[1..], b, sep);
      if s[..1] != sep {
        SplitCount(a[1..], b, sep);
      }
    }
  }

  lemma {:induction false} SplitCount(a: string, b: string, sep: string)
    requires |sep| == 1
    ensures |Split(a + sep + b, sep)| >= 2
    decreases |a|
  {
    var s := a + sep + b;
    if |a| == 0 {
      assert s[..1] == sep;
    } else {
      assert s[1..] == a[1..] + sep + b;
      SplitCount(a[1..], b, sep);
    }
  }

  // ---------------------------------------------------------------- small helpers

  /** Why `return_first_valid` raises: every value is `None`. */
  datatype NoValidValue = NoValidValue

  /** `return_first_valid(*values, raise_error)`. */
  function ReturnFirstValid<T>(values: seq<Option<T>>, raiseError: bool): (r: Result<Option<T>, NoValidValue>)
    ensures r.Err? <==> raiseError && forall i :: 0 <= i < |values| ==> values[i].None?
    ensures r.Ok? && r.value.None? <==> !raiseError && forall i :: 0 <= i < |values| ==> values[i].None?
    ensures r.Ok? && r.value.Some? ==> exists i :: (0 <= i < |values| && values[i] == r.value
      && forall j :: 0 <= j < i ==> values[j].None?)
    decreases |values|
  {
    if |values| == 0 then (if raiseError then Err(NoValidValue) else Ok(None))
    else if values[0].Some? then Ok(values[0])
    else
      var r := ReturnFirstValid(values[1..], raiseError);
      assert r.Ok? && r.value.Some? ==> exists i :: (0 <= i < |values| && values[i] == r.value
        && forall j :: 0 <= j < i ==> values[j].None?) by {
        if r.Ok? && r.value.Some? {
          var i :| 0 <= i < |values[1..]| && values[1..][i] == r.value && forall j :: 0 <= j < i ==> values[1..][j].None?;
          assert values[i + 1] == r.value;
          assert forall j :: 0 <= j < i + 1 ==> values[j].None? by {
            forall j | 0 <= j < i + 1
              ensures values[j].None?
            {
              if j > 0 {
                assert values[j] == values[1..][j - 1];
              }
            }
          }
        }
      }
      r
  }

  /** The argument of `single_string_to_list`: `None`, a string or a list of strings. */
  datatype StringOrList = NoString | OneString(text: string) | StringList(items: seq<string>)

  /** `single_string_to_list`: `None` gives `[]`, a list itself and a string `[s]`. */
  function SingleStringToList(item: StringOrList): (r: seq<string>)
    ensures item.NoString? ==> |r| == 0
    ensures item.OneString? ==> |r| == 1 && r[0] == item.text
    ensures item.StringList? ==> r == item.items
  {
    match item
    case NoString => []
    case OneString(s) => [s]
    case StringList(xs) => xs
  }

  /** Feeding a result back in as a list gives it back unchanged. */
  lemma SingleStringToListStable(item: StringOrList)
    ensures SingleStringToList(StringList(SingleStringToList(item))) == SingleStringToList(item)
  {
  }

  /** `normalize_config_name`: lowercase, then `_` becomes `-`. */
  function NormalizeConfigName(name: string): (r: string)
    ensures |r| == |name|
    ensures forall i :: 0 <= i < |r| ==> r[i] != '_' && !('A' <= r[i] <= 'Z')
  {
    var lower := Lower(name);
    LowerHasNoUpper(name);
    ReplaceCharGone(lower, '_', "-");
    ReplaceCharLength(lower, '_', '-');
    var r := Replace(lower, "_", "-");
    assert forall i :: 0 <= i < |r| ==> r[i] in r;
    r
  }

  lemma {:induction false} ReplaceCharLength(s: string, c: char, d: char)
    ensures |Replace(s, [c], [d])| == |s|
    decreases |s|
  {
    if |s| > 0 {
      assert s[..1] == [s[0]];
      ReplaceCharLength(s[1..], c, d);
    }
  }

  lemma LowerHasNoUpper(s: string)
    ensures forall c :: c in Lower(s) ==> !('A' <= c <= 'Z')
  {
    forall c | c in Lower(s)
      ensures !('A' <= c <= 'Z')
    {
      var j :| 0 <= j < |s| && Lower(s)[j] == c;
    }
  }

  lemma LowerOfLower(s: string)
    requires forall i :: 0 <= i < |s| ==> !('A' <= s[i] <= 'Z')
    ensures Lower(s) == s
  {
  }

  /** Normalising a normalised name changes nothing. */
  lemma NormalizeConfigNameIdempotent(name: string)
    ensures NormalizeConfigName(NormalizeConfigName(name)) == NormalizeConfigName(name)
  {
    var r := NormalizeConfigName(name);
    LowerOfLower(r);
    assert '_' !in r;
    ReplaceCharAbsent(r, '_', "-");
  }

  // ---------------------------------------------------------------- non-conflicting paths

  /** A `pathlib.Path`: absolute or relative, its directories and its final name. */
  datatype Path = Path(absolute: bool, dirs: seq<string>, name: string)

  /** The index of the last `.` in a name, or -1. */
  function LastDot(name: string): (i: int)
    ensures -1 <= i < |name|
    ensures i >= 0 ==> name[i] == '.'
    decreases |name|
  {
    if |name| == 0 then -1
    else if name[|name| - 1] == '.' then |name| - 1
    else LastDot(name[..|name| - 1])
  }

  /** `Path.suffix`: from the last dot, unless that dot is first or last in the name. */
  function Suffix(name: string): string {
    var i := LastDot(name);
    if 0 < i < |name| - 1 then name[i..] else ""
  }

  /** `Path.stem`: the name without its suffix. */
  function Stem(name: string): (r: string)
    ensures r + Suffix(name) == name
  {
    var i := LastDot(name);
    if 0 < i < |name| - 1 then name[..i] else name
  }

  /** The numbered name tried for attempt `i`. */
  function NumberedName(name: string, i: nat, hasExtension: bool): string {
    if hasExtension then Stem(name) + "-" + NatToString(i) + Suffix(name) else name + "-" + NatToString(i)
  }

  /**
   * The candidate of attempt `i` as written. With an extension it is
   * `parent / f"{stem}-{i}{suffix}"`. Without one it is
   * `parent / f"{path}-{i}"`: an absolute path replaces the parent, while a
   * relative one is joined under its own parent a second time.
   */
  function CandidateAsWritten(p: Path, i: nat, hasExtension: bool): Path {
    if hasExtension || p.absolute then p.(name := NumberedName(p.name, i, hasExtension))
    else Path(false, p.dirs + p.dirs, p.name + "-" + NatToString(i))
  }

  /** A relative `out/movie` without extension is retried as `out/out/movie-1`, outside its directory. */
  lemma CandidateLeavesDirectoryAsWritten()
    ensures CandidateAsWritten(Path(false, ["out"], "movie"), 1, false) == Path(false, ["out", "out"], "movie-1")
    ensures CandidateAsWritten(Path(false, ["out"], "movie"), 1, false).dirs != ["out"]
  {
  }

  /** The candidate of attempt `i`: the numbered name in the same directory. */
  function Candidate(p: Path, i: nat, hasExtension: bool): (r: Path)
    ensures r.absolute == p.absolute && r.dirs == p.dirs
  {
    p.(name := NumberedName(p.name, i, hasExtension))
  }

  /** The corrected candidate is what the code gives for extensions and for absolute paths. */
  lemma CandidateAgrees(p: Path, i: nat, hasExtension: bool)
    requires hasExtension || p.absolute
    ensures CandidateAsWritten(p, i, hasExtension) == Candidate(p, i, hasExtension)
  {
  }

  lemma CandidateInjective(p: Path, i: nat, j: nat, hasExtension: bool)
    requires Candidate(p, i, hasExtension) == Candidate(p, j, hasExtension)
    ensures i == j
  {
    var a := NumberedName(p.name, i, hasExtension);
    var b := NumberedName(p.name, j, hasExtension);
    var pre := if hasExtension then Stem(p.name) + "-" else p.name + "-";
    var suf := if hasExtension then Suffix(p.name) else "";
    assert a == pre + NatToString(i) + suf;
    assert b == pre + NatToString(j) + suf;
    assert |NatToString(i)| == |NatToString(j)|;
    assert NatToString(i) == a[|pre|..|a| - |suf|];
    assert NatToString(j) == b[|pre|..|b| - |suf|];
    NatToStringInjective(i, j);
  }

  /** The candidates of attempts 1 to n. */
  function Candidates(p: Path, n: nat, hasExtension: bool): (r: set<Path>)
    ensures forall j :: 1 <= j <= n ==> Candidate(p, j, hasExtension) in r
    decreases n
  {
    if n == 0 then {} else Candidates(p, n - 1, hasExtension) + {Candidate(p, n, hasExtension)}
  }

  lemma {:induction false} CandidatesSize(p: Path, n: nat, hasExtension: bool)
    ensures |Candidates(p, n, hasExtension)| == n
    ensures forall x :: x in Candidates(p, n, hasExtension) ==> exists j :: 1 <= j <= n && x == Candidate(p, j, hasExtension)
    decreases n
  {
    if n > 0 {
      CandidatesSize(p, n - 1, hasExtension);
      if Candidate(p, n, hasExtension) in Candidates(p, n - 1, hasExtension) {
        var j :| 1 <= j <= n - 1 && Candidate(p, n, hasExtension) == Candidate(p, j, hasExtension);
        CandidateInjective(p, n, j, hasExtension);
      }
    }
  }

  /** n attempts that all exist are n distinct existing paths. */
  lemma AttemptsBounded(p: Path, n: nat, hasExtension: bool, existing: set<Path>)
    requires forall j :: 1 <= j <= n ==> Candidate(p, j, hasExtension) in existing
    ensures n <= |existing|
  {
    CandidatesSize(p, n, hasExtension);
    SubsetSize(Candidates(p, n, hasExtension), existing);
  }

  lemma {:induction false} SubsetSize<T>(a: set<T>, b: set<T>)
    requires a <= b
    ensures |a| <= |b|
    decreases a
  {
    if a != {} {
      var x :| x in a;
      SubsetSize(a - {x}, b - {x});
    }
  }

  /**
   * `generate_non_conflicting_path`: the path itself when it does not exist,
   * otherwise the first numbered sibling, counting from 1, that does not.
   */
  method GenerateNonConflictingPath(p: Path, hasExtension: bool, existing: set<Path>) returns (r: Path)
    ensures r !in existing
    ensures p !in existing ==> r == p
    ensures p in existing ==> exists i :: (1 <= i && r == Candidate(p, i, hasExtension)
      && forall j :: 1 <= j < i ==> Candidate(p, j, hasExtension) in existing)
  {
    if p !in existing {
      return p;
    }
    var i := 1;
    while Candidate(p, i, hasExtension) in existing
      invariant 1 <= i <= |existing| + 1
      invariant forall j :: 1 <= j < i ==> Candidate(p, j, hasExtension) in existing
      decreases |existing| + 1 - i
    {
      AttemptsBounded(p, i, hasExtension, existing);
      i := i + 1;
    }
    r := Candidate(p, i, hasExtension);
  }
}
