/**
 * The regular expressions of the WebVTT reader, written as deterministic
 * recognisers. Each returns what `re.match` would: whether the pattern
 * matches at the start of the line and the text of its groups. Python's
 * backtracking settles on the first alternative that leads to a match;
 * for these patterns that is also the greedy, left-to-right reading below.
 * `\d` is taken to mean the ASCII digits.
 */
module VttSyntax {
  import opened Results
  import opened Strings

  /** `[0-5]\d` at index `i`. */
  predicate SexagesimalAt(s: string, i: nat) {
    i + 1 < |s| && '0' <= s[i] <= '5' && IsDigit(s[i + 1])
  }

  /** `[0-5]\d:[0-5]\d[\.,]\d{3}` at the start of `s`. */
  predicate ShortTimestampAt(s: string) {
    |s| >= 9 && SexagesimalAt(s, 0) && s[2] == ':' && SexagesimalAt(s, 3)
    && (s[5] == '.' || s[5] == ',') && IsDigit(s[6]) && IsDigit(s[7]) && IsDigit(s[8])
  }

  /** `[0-5]\d:` followed by the short form. */
  predicate LongTimestampAt(s: string) {
    |s| >= 12 && SexagesimalAt(s, 0) && s[2] == ':' && ShortTimestampAt(s[3..])
  }

  /**
   * Length of the match of `(?:[0-5]\d:)?[0-5]\d:[0-5]\d[\.,]\d{3}` at the
   * start of `s`, 0 when there is none. The two shapes cannot both match at
   * the same place: index 5 is `:` in the long one and `.` or `,` in the short one.
   */
  function TimestampLength(s: string): (n: nat)
    ensures n == 0 || n == 9 || n == 12
    ensures n <= |s|
    ensures n == 12 <==> LongTimestampAt(s)
    ensures n == 9 <==> ShortTimestampAt(s)
  {
    if LongTimestampAt(s) then 12 else if ShortTimestampAt(s) then 9 else 0
  }

  /** Length of the run of `[ \t]` at the start of `s`. */
  function BlankRun(s: string): (n: nat)
    ensures n <= |s|
    ensures forall i :: 0 <= i < n ==> IsBlank(s[i])
    ensures n == |s| || !IsBlank(s[n])
  {
    |s| - |LStrip(s, IsBlank)|
  }

  /** Length of the run of ASCII digits at the start of `s`. */
  function DigitRun(s: string): (n: nat)
    ensures n <= |s|
    ensures forall i :: 0 <= i < n ==> IsDigit(s[i])
    ensures n == |s| || !IsDigit(s[n])
  {
    |s| - |LStrip(s, IsDigit)|
  }

  /** Ordered alternation of literal words: the length of the first one `s` starts with, 0 if none. */
  function WordLength(s: string, words: seq<string>): (n: nat)
    ensures n <= |s|
    ensures n > 0 ==> exists k :: 0 <= k < |words| && words[k] != "" && n == |words[k]| && StartsWith(s, words[k])
  {
    if |words| == 0 then 0
    else if words[0] != "" && StartsWith(s, words[0]) then |words[0]|
    else WordLength(s, words[1..])
  }

  const AlignValues: seq<string> := ["start", "center", "middle", "end", "left", "right"]
  const AnchorValues: seq<string> := ["start", "center", "middle", "end"]
  const VerticalValues: seq<string> := ["lr", "rl"]

  /** `\d{1,3}(?:\.\d+)?%`. */
  function PercentageLength(s: string): (n: nat)
    ensures n <= |s|
    ensures n > 0 ==> n >= 2 && s[n - 1] == '%' && IsDigit(s[0])
  {
    var d := DigitRun(s);
    if d < 1 || d > 3 || d == |s| then 0
    else if s[d] == '%' then d + 1
    else if s[d] == '.' then
      var e := DigitRun(s[d + 1..]);
      if e >= 1 && d + 1 + e < |s| && s[d + 1 + e] == '%' then d + e + 2 else 0
    else 0
  }

  /** `(?:<percentage>|-?\d+%)`, the value of a `line:` setting. */
  function LineValueLength(s: string): (n: nat)
    ensures n <= |s|
  {
    var p := PercentageLength(s);
    if p > 0 then p
    else
      var m := if |s| > 0 && s[0] == '-' then 1 else 0;
      var e := DigitRun(s[m..]);
      if e >= 1 && m + e < |s| && s[m + e] == '%' then m + e + 1 else 0
  }

  /** `(?:,(?:start|center|middle|end))?`. */
  function AnchorLength(s: string): (n: nat)
    ensures n <= |s|
  {
    if |s| > 0 && s[0] == ',' then
      var w := WordLength(s[1..], AnchorValues);
      if w > 0 then 1 + w else 0
    else 0
  }

  /** `(?:(?!-->|\t)\S)+` taken greedily; 0 when it cannot take one character. */
  function RegionIdLength(s: string): (n: nat)
    ensures n <= |s|
    ensures forall i :: 0 <= i < n ==> !IsSpace(s[i])
    decreases |s|
  {
    if |s| == 0 || IsSpace(s[0]) || StartsWith(s, "-->") then 0 else 1 + RegionIdLength(s[1..])
  }

  /**
   * One iteration of the cue-settings group: the length taken by the first
   * of its seven alternatives that matches at the start of `s`, 0 if none.
   */
  function SettingLength(s: string): (n: nat)
    ensures n <= |s|
  {
    if StartsWith(s, "align:") && WordLength(s[6..], AlignValues) > 0 then
      6 + WordLength(s[6..], AlignValues)
    else if StartsWith(s, "line:") && LineValueLength(s[5..]) > 0 then
      var v := LineValueLength(s[5..]);
      5 + v + AnchorLength(s[5 + v..])
    else if StartsWith(s, "position:") && PercentageLength(s[9..]) > 0 then
      var v := PercentageLength(s[9..]);
      9 + v + AnchorLength(s[9 + v..])
    else if StartsWith(s, "region:") && RegionIdLength(s[7..]) > 0 then
      7 + RegionIdLength(s[7..])
    else if StartsWith(s, "size:") && PercentageLength(s[5..]) > 0 then
      5 + PercentageLength(s[5..])
    else if StartsWith(s, "vertical:") && WordLength(s[9..], VerticalValues) > 0 then
      9 + WordLength(s[9..], VerticalValues)
    else
      BlankRun(s)
  }

  /** The cue-settings group `(?:…)*`: as many iterations as match, greedily. */
  function SettingsLength(s: string): (n: nat)
    ensures n <= |s|
    decreases |s|
  {
    var k := SettingLength(s);
    if k == 0 then 0 else k + SettingsLength(s[k..])
  }

  /** Groups 1 (the cue timings) and 2 (the cue settings) of a caption header match. */
  datatype CaptionHeadMatch = CaptionHeadMatch(timing: string, settings: string)

  /** Matches `[ \t]+-->[ \t]+<timestamp>` at the start of `s`; its length, 0 if none. */
  function ArrowAndEndLength(s: string): (n: nat)
    ensures n <= |s|
  {
    var b1 := BlankRun(s);
    if b1 == 0 || !StartsWith(s[b1..], "-->") then 0
    else
      var r := s[b1 + 3..];
      var b2 := BlankRun(r);
      if b2 == 0 then 0
      else
        var c := TimestampLength(r[b2..]);
        if c == 0 then 0 else b1 + 3 + b2 + c
  }

  /**
   * `re.match(WEBVTT_CAPTION_BLOCK_REGEX, line)`:
   * `^(<timestamp>[ \t]+-->[ \t]+<timestamp>)[ \t]*(<settings>)?`.
   */
  function CaptionHead(line: string): (r: Option<CaptionHeadMatch>)
    ensures r.Some? ==> TimestampLength(line) > 0 && StartsWith(line, r.value.timing)
  {
    var n := CueTimingsLength(line);
    if n == 0 then None
    else
      assert StartsWith(line, line[..n]);
      Some(CaptionHeadMatch(line[..n], SettingsGroup(line[n..])))
  }

  /** Length of group 1, `<timestamp>[ \t]+-->[ \t]+<timestamp>`, at the start of `line`; 0 if it does not match. */
  function CueTimingsLength(line: string): (n: nat)
    ensures n <= |line|
    ensures n > 0 ==> TimestampLength(line) > 0
  {
    var a := TimestampLength(line);
    if a == 0 then 0
    else
      var b := ArrowAndEndLength(line[a..]);
      if b == 0 then 0 else a + b
  }


  /** Group 2 of a caption header match, read from the text after the cue timings. */
  function SettingsGroup(s: string): (r: string)
    ensures |r| <= |s|
  {
    var settingsText := s[BlankRun(s)..];
    settingsText[..SettingsLength(settingsText)]
  }


  lemma ContainsSuffixPrefix(s: string, k: nat, p: string)
    requires k <= |s| && StartsWith(s[k..], p)
    ensures Contains(s, p)
    decreases k
  {
    if k > 0 {
      assert s[1..][k - 1..] == s[k..];
      ContainsSuffixPrefix(s[1..], k - 1, p);
    }
  }

  /** Text up to (not including) the first `\n`: what `.+` can consume. */
  function UpToNewline(s: string): (r: string)
    ensures StartsWith(s, r) && '\n' !in r
    ensures |r| == |s| || s[|r|] == '\n'
  {
    if |s| == 0 || s[0] == '\n' then "" else [s[0]] + UpToNewline(s[1..])
  }

  /**
   * `re.match(WEBVTT_COMMENT_HEADER_REGEX, line)`, i.e. `^NOTE(?:$|[ \t])(.+)?`:
   * `None` when it does not match, `Some(None)` when it matches without
   * group 1, `Some(Some(g))` when group 1 is `g`. `$` also matches before a
   * final `\n`.
   */
  function CommentHead(line: string): (r: Option<Option<string>>)
    ensures r.Some? ==> StartsWith(line, "NOTE")
    ensures r.Some? && r.value.Some? ==> r.value.value != "" && Contains(line, r.value.value)
  {
    if !StartsWith(line, "NOTE") then None
    else if |line| == 4 || line[4..] == "\n" then Some(None)
    else if IsBlank(line[4]) then
      var g := UpToNewline(line[5..]);
      ContainsSuffixPrefix(line, 5, g);
      if g == "" then Some(None) else Some(Some(g))
    else None
  }

  /** `line.rstrip(' \t') == header`, how `REGION` and `STYLE` header lines are recognised. */
  predicate IsHeaderLine(line: string, header: string) {
    RStrip(line, IsBlank) == header
  }

  // ---------------------------------------------------------------- properties

  /** A long and a short timestamp are both recognised, with either millisecond separator. */
  lemma TimestampShapes()
    ensures TimestampLength("01:02:03.456") == 12
    ensures TimestampLength("01:02:03,456") == 12
    ensures TimestampLength("02:03.456") == 9
    ensures TimestampLength("02:03,456") == 9
    ensures TimestampLength("60:00.000") == 0
    ensures TimestampLength("1:02.345") == 0
  {
    assert ShortTimestampAt("01:02:03.456"[3..]);
    assert ShortTimestampAt("01:02:03,456"[3..]);
    assert !LongTimestampAt("02:03.456");
  }

  /** A comment header with text after a blank carries that text as group 1. */
  lemma CommentHeadInline(text: string)
    requires text != "" && '\n' !in text
    ensures CommentHead("NOTE " + text) == Some(Some(text))
  {
    var line := "NOTE " + text;
    UpToNewlineWhole(text);
    assert line[5..] == text;
    assert line[..4] == "NOTE";
    assert line[4..] != "\n";
  }

  /** The bare comment header carries no group 1. */
  lemma CommentHeadBare()
    ensures CommentHead("NOTE") == Some(None)
  {
  }

  /** A comment header with text after the blank carries that text as group 1; bare forms carry none. */
  lemma CommentHeadShapes(text: string)
    requires text != "" && '\n' !in text
    ensures CommentHead("NOTE " + text) == Some(Some(text))
    ensures CommentHead("NOTE\t" + text) == Some(Some(text))
    ensures CommentHead("NOTE") == Some(None)
    ensures CommentHead("NOTE ") == Some(None)
    ensures CommentHead("NOTES") == None
  {
    CommentHeadInline(text);
    UpToNewlineWhole(text);
    assert ("NOTE\t" + text)[5..] == text;
    assert ("NOTE\t" + text)[..4] == "NOTE";
    assert ("NOTE\t" + text)[4..] != "\n";
  }


  lemma {:induction false} UpToNewlineWhole(s: string)
    requires '\n' !in s
    ensures UpToNewline(s) == s
  {
    if |s| > 0 {
      UpToNewlineWhole(s[1..]);
    }
  }
}
