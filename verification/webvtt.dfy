/**
 * `WebVTTSubtitles.dumps` and `WebVTTSubtitles.loads`, and the corrected
 * pair under which a document reads back as written.
 *
 * As written, `Style` and `Region` blocks render as `STYLE payload` and
 * `REGION payload` on one line, which the reader never recognises as a
 * header, and the reader builds a `Region` for a `STYLE` header. The
 * corrected pair writes the header on a line of its own, as a WebVTT
 * style or region block is laid out, and reads `STYLE` back as `Style`.
 */
module WebVtt {
  import opened Results
  import opened Strings
  import opened Timing
  import opened VttSyntax
  import opened VttScan
  import opened Blocks
  import Seqs

  /** Each block's text followed by a blank line, in order. */
  function Concat(blocks: seq<Block>, text: Block -> string): string
    decreases |blocks|
  {
    if |blocks| == 0 then "" else text(blocks[0]) + "\n\n" + Concat(blocks[1..], text)
  }

  /** `WebVTTSubtitles.dumps`: the `WEBVTT` header, a blank line, the blocks, trailing newlines stripped. */
  function Dumps(blocks: seq<Block>): (r: string)
    ensures StartsWith(r, "WEBVTT")
    ensures r[|r| - 1] != '\n'
  {
    var text := "WEBVTT\n\n" + Concat(blocks, Str);
    assert text[..6] == "WEBVTT";
    RStripPrefix(text, 6, IsNewline);
    RStrip(text, IsNewline)
  }

  /** A document without blocks is the bare header line. */
  lemma DumpsEmpty()
    ensures Dumps([]) == "WEBVTT"
  {
    assert "WEBVTT\n\n"[..7] == "WEBVTT\n";
    assert "WEBVTT\n"[..6] == "WEBVTT";
  }

  /** The block the reader builds from an entry; both header kinds become `Region`. */
  function ToBlock(e: Entry): (b: Block)
    ensures !b.Style? && !b.SubRipCaption? && !b.IsModified()
  {
    match e
    case CaptionEntry(id, s, t, settings, p) => Caption(s, t, p, settings, id, false)
    case CommentEntry(p, inline) => Comment(p, inline)
    case HeaderEntry(_, p) => Region(p)
  }

  /** `WebVTTSubtitles.loads`, with `add_block` read as a plain append. */
  function Loads(data: string): (r: Result<seq<Block>, TimeError>)
    ensures r.Ok? ==> forall b <- r.value :: !b.Style? && !b.SubRipCaption? && !b.IsModified()
  {
    var entries :- Scan(SplitLines(data), "", Current);
    Ok(Seqs.Map(ToBlock, entries))
  }

  // ---------------------------------------------------------------- corrected pair

  /** Style and region blocks with the header on its own line; every other block as `Str`. */
  function StrFixed(b: Block): string {
    match b
    case Style(p) => "STYLE\n" + p
    case Region(p) => "REGION\n" + p
    case _ => Str(b)
  }

  /** The corrected writer: as `Dumps`, with style and region headers on a line of their own. */
  function DumpsFixed(blocks: seq<Block>): (r: string)
    ensures StartsWith(r, "WEBVTT")
  {
    var text := "WEBVTT\n\n" + Concat(blocks, StrFixed);
    assert text[..6] == "WEBVTT";
    RStripPrefix(text, 6, IsNewline);
    RStrip(text, IsNewline)
  }

  /** The corrected reader: a `STYLE` header builds a `Style`. */
  function ToBlockFixed(e: Entry): (b: Block)
    ensures !b.SubRipCaption? && !b.IsModified()
  {
    match e
    case CaptionEntry(id, s, t, settings, p) => Caption(s, t, p, settings, id, false)
    case CommentEntry(p, inline) => Comment(p, inline)
    case HeaderEntry(RegionHeader, p) => Region(p)
    case HeaderEntry(StyleHeader, p) => Style(p)
  }

  /** The corrected reader: as `Loads`, with a `STYLE` header read as a `Style` block. */
  function LoadsFixed(data: string): (r: Result<seq<Block>, TimeError>)
    ensures r.Ok? ==> forall b <- r.value :: !b.SubRipCaption? && !b.IsModified()
  {
    var entries :- Scan(SplitLines(data), "", Current);
    Ok(Seqs.Map(ToBlockFixed, entries))
  }

  /** The two readers differ only in the class built for a `STYLE` header. */
  lemma LoadsIsLoadsFixedWithRegions(data: string)
    ensures LoadsFixed(data).Ok? <==> Loads(data).Ok?
    ensures Loads(data).Ok? ==> Loads(data).value == Seqs.Map(AsRegion, LoadsFixed(data).value)
  {
    var scanned := Scan(SplitLines(data), "", Current);
    if scanned.Ok? {
      var entries := scanned.value;
      assert Loads(data) == Ok(Seqs.Map(ToBlock, entries));
      assert LoadsFixed(data) == Ok(Seqs.Map(ToBlockFixed, entries));
      MapToBlockAsRegion(entries);
    }
  }

  lemma MapToBlockAsRegion(entries: seq<Entry>)
    ensures Seqs.Map(ToBlock, entries) == Seqs.Map(AsRegion, Seqs.Map(ToBlockFixed, entries))
  {
    var fixed := Seqs.Map(ToBlockFixed, entries);
    forall i | 0 <= i < |entries|
      ensures Seqs.Map(ToBlock, entries)[i] == Seqs.Map(AsRegion, fixed)[i]
    {
      assert fixed[i] == ToBlockFixed(entries[i]);
    }
  }

  /** A `Style` read as `Region`; every other block unchanged. */
  function AsRegion(b: Block): Block {
    if b.Style? then Region(b.payload) else b
  }

  // ---------------------------------------------------------------- what reads back

  /** Non-empty lines without line breaks. */
  predicate LinesOk(p: string) {
    forall l <- Split(p, "\n") :: l != "" && NoBreaks(l)
  }

  predicate PayloadOk(p: string) {
    p == "" || LinesOk(p)
  }

  /** An identifier line the reader skips, so that it reaches the caption as the previous line. */
  predicate IdentifierOk(id: string) {
    id == "" || (NoBreaks(id) && Plain(id, Current))
  }

  /** Settings the settings group takes whole, right after the blank that follows the timings. */
  predicate SettingsOk(settings: string) {
    settings == "" || (NoBreaks(settings) && !IsBlank(settings[0]) && SettingsLength(settings) == |settings|)
  }

  /** A WebVTT block the corrected pair writes and reads back unchanged. */
  predicate Storable(b: Block) {
    match b
    case Caption(s, e, p, settings, id, modified) =>
      !modified && s.micro % 1000 == 0 && e.micro % 1000 == 0
      && IdentifierOk(id) && SettingsOk(settings) && PayloadOk(p)
    case Comment(p, inline) => if inline then p != "" && LinesOk(p) else PayloadOk(p)
    case Style(p) => PayloadOk(p)
    case Region(p) => PayloadOk(p)
    case SubRipCaption(_, _, _, _) => false
  }

  /** The entry the reader produces for a block; a SubRip caption is never written, and is taken as a bare caption. */
  function EntryFor(b: Block): Entry {
    match b
    case Caption(s, e, p, settings, id, _) => CaptionEntry(id, s, e, settings, p)
    case SubRipCaption(s, e, p, _) => CaptionEntry("", s, e, "", p)
    case Comment(p, inline) => CommentEntry(p, inline)
    case Style(p) => HeaderEntry(StyleHeader, p)
    case Region(p) => HeaderEntry(RegionHeader, p)
  }


  /** An entry in front of a reading result. */
  function Prepend(e: Entry, r: Result<seq<Entry>, TimeError>): Result<seq<Entry>, TimeError> {
    if r.Ok? then Ok([e] + r.value) else r
  }

  /** The lines one block contributes to a document: its text and the blank line after it. */
  function BlockLines(b: Block, text: Block -> string): seq<string> {
    Split(text(b), "\n") + [""]
  }

  function AllLines(blocks: seq<Block>, text: Block -> string): seq<string>
    decreases |blocks|
  {
    if |blocks| == 0 then [] else BlockLines(blocks[0], text) + AllLines(blocks[1..], text)
  }

  lemma {:induction false} ConcatIsTerminated(blocks: seq<Block>, text: Block -> string)
    ensures Concat(blocks, text) == Terminated(AllLines(blocks, text))
    decreases |blocks|
  {
    if |blocks| > 0 {
      ConcatIsTerminated(blocks[1..], text);
      TerminatedConcat(BlockLines(blocks[0], text), AllLines(blocks[1..], text));
      TerminatedOfSplit(text(blocks[0]));
    }
  }

  lemma TerminatedOfSplit(s: string)
    ensures Terminated(Split(s, "\n") + [""]) == s + "\n\n"
  {
    var lines := Split(s, "\n");
    var init := lines[..|lines| - 1];
    assert lines == init + [lines[|lines| - 1]];
    JoinSnoc(init, lines[|lines| - 1]);
    TerminatedSnoc(init, lines[|lines| - 1]);
    JoinSplit(s, "\n");
    TerminatedSnoc(lines, "");
  }

  /** The lines `SplitLines` gives for a whole document, when no line of it holds a line break. */
  lemma DocumentLines(blocks: seq<Block>, text: Block -> string)
    requires forall l <- AllLines(blocks, text) :: NoBreaks(l)
    ensures SplitLines(RStrip("WEBVTT\n\n" + Concat(blocks, text), IsNewline))
            == TrimEmpty(["WEBVTT", ""] + AllLines(blocks, text))
  {
    var lines := ["WEBVTT", ""] + AllLines(blocks, text);
    ConcatIsTerminated(blocks, text);
    TerminatedConcat(["WEBVTT", ""], AllLines(blocks, text));
    assert Terminated(["WEBVTT", ""]) == "WEBVTT\n\n";
    forall k | 0 <= k < |lines|
      ensures NoBreaks(lines[k])
    {
      if k >= 2 {
        assert lines[k] in AllLines(blocks, text);
      }
    }
    SplitLinesOfStripped(lines);
  }

  /** The `WEBVTT` line is skipped and the blank line after it resets the previous line. */
  lemma ScanDocument(lines: seq<string>)
    ensures Scan(["WEBVTT", ""] + lines, "", Current) == Scan(lines, "", Current)
  {
    assert !SexagesimalAt("WEBVTT", 0);
    assert "WEBVTT"[..4] != "NOTE";
    assert RStrip("WEBVTT", IsBlank) == "WEBVTT" by {
      RStripKeeps("WEBVTT", IsBlank);
    }
    assert ["WEBVTT", ""] + lines == ["WEBVTT"] + ([""] + lines);
    ScanPlain("WEBVTT", [""] + lines, "", Current);
    ScanEmptyLine(lines, "WEBVTT");
  }

  // ---------------------------------------------------------------- reading one block

  /** A block opened by `line`, its body lines, then the empty line that closes it. */
  lemma ScanClosedBlock(line: string, body: seq<string>, rest: seq<string>, prev: string, e: Entry, syn: Syntax)
    requires Opens(line, syn).Some?
    requires forall k :: 0 <= k < |body| ==> body[k] != ""
    requires EntryOf(Opens(line, syn).value, prev, body) == Ok(e)
    ensures Scan([line] + body + [""] + rest, prev, syn) == Prepend(e, Scan(rest, "", syn))
  {
    var lines := [line] + body + [""] + rest;
    assert lines[0] == line;
    assert lines[1..] == body + [""] + rest;
    TakeBodyOf(body, rest);
  }


  /** The body lines of a payload: none for the empty payload, its lines otherwise. */
  function BodyLines(p: string): seq<string> {
    if p == "" then [] else Split(p, "\n")
  }

  lemma BodyLinesOf(p: string)
    requires PayloadOk(p)
    ensures forall k :: 0 <= k < |BodyLines(p)| ==> BodyLines(p)[k] != "" && '\n' !in BodyLines(p)[k]
    ensures Payload(BodyLines(p)) == p
  {
    if p != "" {
      var lines := Split(p, "\n");
      forall k | 0 <= k < |lines|
        ensures lines[k] != "" && '\n' !in lines[k]
      {
        assert lines[k] in lines;
        NoBreaksNoNewline(lines[k]);
      }
      PayloadJoins(lines);
      JoinSplit(p, "\n");
    } else {
      assert Terminated([]) == "";
    }
  }

  /** A block opened by `line` whose payload `p` follows as its lines. */
  lemma EmptyPayloadLines(line: string, rest: seq<string>)
    ensures [line] + Split("", "\n") + [""] + rest == [line] + [] + [""] + ([""] + rest)
  {
    assert Split("", "\n") == [""];
  }

  lemma ScanPayloadBlock(line: string, p: string, rest: seq<string>, prev: string, e: Entry)
    requires Opens(line, Current).Some?
    requires PayloadOk(p)
    requires EntryOf(Opens(line, Current).value, prev, BodyLines(p)) == Ok(e)
    ensures Scan([line] + Split(p, "\n") + [""] + rest, prev, Current) == Prepend(e, Scan(rest, "", Current))
  {
    if p == "" {
      EmptyPayloadLines(line, rest);
      ScanClosedBlock(line, [], [""] + rest, prev, e, Current);
      ScanEmptyLine(rest, "");
    } else {
      BodyLinesOf(p);
      ScanClosedBlock(line, Split(p, "\n"), rest, prev, e, Current);
    }
  }


  // ---------------------------------------------------------------- line shapes

  lemma NoBreaksNoNewline(a: string)
    requires NoBreaks(a)
    ensures '\n' !in a
  {
    assert forall i :: 0 <= i < |a| ==> a[i] != '\n' by {
      forall i | 0 <= i < |a|
        ensures a[i] != '\n'
      {
        assert !IsLineBreak(a[i]);
      }
    }
  }

  lemma NoBreaksConcat(a: string, b: string)
    requires NoBreaks(a) && NoBreaks(b)
    ensures NoBreaks(a + b)
  {
    assert forall i :: 0 <= i < |a + b| ==> (a + b)[i] == if i < |a| then a[i] else b[i - |a|];
  }

  /** The cue line: the timings, then a blank and the settings when there are any. */
  function CueLine(s: Time, e: Time, settings: string): string {
    TimingLine(s, e, '.') + (if settings != "" then " " + settings else "")
  }

  lemma CueLineNoBreaks(s: Time, e: Time, settings: string)
    requires SettingsOk(settings)
    ensures NoBreaks(CueLine(s, e, settings))
  {
    NoBreaksConcat(FormatTime(s, '.'), " --> ");
    NoBreaksConcat(FormatTime(s, '.') + " --> ", FormatTime(e, '.'));
    if settings != "" {
      NoBreaksConcat(" ", settings);
      NoBreaksConcat(TimingLine(s, e, '.'), " " + settings);
    }
  }

  /** A text that starts with a rendered time starts with a long timestamp. */
  lemma TimestampOfFormat(t: Time, x: string)
    requires |x| >= 12 && x[..12] == FormatTime(t, '.')
    ensures TimestampLength(x) == 12
  {
    var f := FormatTime(t, '.');
    assert x[0] == f[0] && x[1] == f[1] && x[2] == f[2];
    var g := x[3..];
    assert g[0] == f[3] && g[1] == f[4] && g[2] == f[5];
    assert g[3] == f[6] && g[4] == f[7] && g[5] == f[8];
    assert g[6] == f[9] && g[7] == f[10] && g[8] == f[11];
  }


  /** One blank before a character that is not a blank is a blank run of one. */
  lemma OneBlank(x: string)
    requires |x| > 0 && !IsBlank(x[0])
    ensures BlankRun(" " + x) == 1
  {
    assert (" " + x)[0] == ' ' && (" " + x)[1] == x[0];
  }

  /** `[ \t]+-->[ \t]+<timestamp>` is taken whole before a long timestamp. */
  lemma ArrowBefore(f: string)
    requires TimestampLength(f) == 12
    ensures ArrowAndEndLength(" --> " + f) == 17
  {
    var r := " --> " + f;
    assert r == " " + ("--> " + f);
    OneBlank("--> " + f);
    assert r[1..][..3] == "-->";
    assert r[4..] == " " + f;
    OneBlank(f);
    assert r[4..][1..] == f;
  }



  lemma EmptySettings()
    ensures SettingsLength("") == 0
  {
    assert SettingLength("") == 0;
  }

  /** Group 2 reads back the settings the writer put after one blank. */
  lemma SettingsGroupOf(settings: string)
    requires SettingsOk(settings)
    ensures SettingsGroup(if settings != "" then " " + settings else "") == settings
  {
    if settings != "" {
      OneBlank(settings);
      assert (" " + settings)[1..] == settings;
      assert settings[..SettingsLength(settings)] == settings;
    } else {
      assert BlankRun("") == 0;
      EmptySettings();
    }
  }

  /** The caption expression on a line that starts with a 12-character timing pair of 29 characters. */
  lemma CaptionHeadAt29(line: string, settings: string)
    requires TimestampLength(line) == 12 && ArrowAndEndLength(line[12..]) == 17
    requires SettingsOk(settings)
    requires line[29..] == if settings != "" then " " + settings else ""
    ensures CaptionHead(line) == Some(CaptionHeadMatch(line[..29], settings))
  {
    SettingsGroupOf(settings);
  }


  /** Where the parts of a cue line sit. */
  lemma CueLineShape(a: string, b: string, tail: string)
    requires |a| == 12 && |b| == 12
    ensures (a + " --> " + b + tail)[..12] == a
    ensures (a + " --> " + b + tail)[12..] == " --> " + (b + tail)
    ensures (a + " --> " + b + tail)[..29] == a + " --> " + b
    ensures (a + " --> " + b + tail)[29..] == tail
    ensures (b + tail)[..12] == b
  {
  }


  /** The reader recognises the cue line it is given, and its groups are the timings and the settings. */
  lemma CaptionHeadOfCueLine(s: Time, e: Time, settings: string)
    requires SettingsOk(settings)
    ensures CaptionHead(CueLine(s, e, settings)) == Some(CaptionHeadMatch(TimingLine(s, e, '.'), settings))
  {
    var tail := if settings != "" then " " + settings else "";
    var a, b := FormatTime(s, '.'), FormatTime(e, '.');
    var line := a + " --> " + b + tail;
    assert CueLine(s, e, settings) == line;
    CueLineShape(a, b, tail);
    TimestampOfFormat(s, line);
    TimestampOfFormat(e, b + tail);
    ArrowBefore(b + tail);
    CaptionHeadAt29(line, settings);
  }


  lemma AlignedTime(t: Time)
    requires t.micro % 1000 == 0
    ensures TruncateToMillis(t) == t
  {
  }

  /** A storable caption's cue line opens a caption, and the reader builds its entry. */
  lemma CaptionOpens(b: Block)
    requires b.Caption? && Storable(b)
    ensures Opens(CueLine(b.startTime, b.endTime, b.settings), Current).Some?
    ensures EntryOf(Opens(CueLine(b.startTime, b.endTime, b.settings), Current).value, b.identifier, BodyLines(b.payload))
            == Ok(EntryFor(b))
  {
    CaptionHeadOfCueLine(b.startTime, b.endTime, b.settings);
    SplitFormattedTimestamp(b.startTime, b.endTime, '.');
    AlignedTime(b.startTime);
    AlignedTime(b.endTime);
    BodyLinesOf(b.payload);
  }

  lemma CaptionText(b: Block)
    requires b.Caption?
    ensures StrFixed(b) == (if b.identifier != "" then b.identifier + "\n" else "")
                          + (CueLine(b.startTime, b.endTime, b.settings) + "\n" + b.payload)
  {
  }

  /** The lines of a caption whose identifier and cue line are single lines. */
  lemma CaptionSplit(id: string, cue: string, p: string)
    requires '\n' !in id && '\n' !in cue
    ensures Split((if id != "" then id + "\n" else "") + (cue + "\n" + p), "\n")
            == (if id != "" then [id] else []) + [cue] + Split(p, "\n")
  {
    SplitAt(cue, p, "\n");
    if id != "" {
      SplitAt(id, cue + "\n" + p, "\n");
      assert id + "\n" + (cue + "\n" + p) == (id + "\n") + (cue + "\n" + p);
    } else {
      assert "" + (cue + "\n" + p) == cue + "\n" + p;
      assert [] + [cue] + Split(p, "\n") == [cue] + Split(p, "\n");
    }
  }

  /** The lines of a storable caption: identifier (if any), cue line, payload lines. */
  lemma CaptionLines(b: Block)
    requires b.Caption? && Storable(b)
    ensures BlockLines(b, StrFixed)
            == (if b.identifier != "" then [b.identifier] else []) + [CueLine(b.startTime, b.endTime, b.settings)]
               + Split(b.payload, "\n") + [""]
  {
    var cue := CueLine(b.startTime, b.endTime, b.settings);
    CueLineNoBreaks(b.startTime, b.endTime, b.settings);
    NoBreaksNoNewline(cue);
    if b.identifier != "" {
      NoBreaksNoNewline(b.identifier);
    }
    CaptionText(b);
    CaptionSplit(b.identifier, cue, b.payload);
  }

  lemma SeqShape(front: seq<string>, cue: string, lines: seq<string>, rest: seq<string>)
    ensures front + [cue] + lines + [""] + rest == front + ([cue] + lines + [""] + rest)
  {
  }

  /** A caption block: an optional identifier line the reader skips, the cue line, the payload lines. */
  lemma ScanIdentifiedBlock(id: string, cue: string, p: string, rest: seq<string>, e: Entry)
    requires id == "" || Plain(id, Current)
    requires Opens(cue, Current).Some? && PayloadOk(p)
    requires EntryOf(Opens(cue, Current).value, id, BodyLines(p)) == Ok(e)
    ensures Scan((if id != "" then [id] else []) + [cue] + Split(p, "\n") + [""] + rest, "", Current)
            == Prepend(e, Scan(rest, "", Current))
  {
    var front: seq<string> := if id != "" then [id] else [];
    var after := [cue] + Split(p, "\n") + [""] + rest;
    SeqShape(front, cue, Split(p, "\n"), rest);
    if id != "" {
      ScanPlain(id, after, "", Current);
    } else {
      assert front + after == after;
    }
    ScanPayloadBlock(cue, p, rest, id, e);
  }

  /** A caption's lines read back as its entry. */
  lemma ScanCaption(b: Block, rest: seq<string>)
    requires b.Caption? && Storable(b)
    ensures Scan(BlockLines(b, StrFixed) + rest, "", Current) == Prepend(EntryFor(b), Scan(rest, "", Current))
  {
    CaptionLines(b);
    CaptionOpens(b);
    ScanIdentifiedBlock(b.identifier, CueLine(b.startTime, b.endTime, b.settings), b.payload, rest, EntryFor(b));
  }

  lemma SplitAfterPrefix(a: string, s: string)
    requires '\n' !in a
    ensures Split(a + s, "\n") == [a + Split(s, "\n")[0]] + Split(s, "\n")[1..]
  {
    var lines := Split(s, "\n");
    JoinSplit(s, "\n");
    if '\n' in s {
      var i := FirstNewline(s);
      SplitAt(s[..i], s[i + 1..], "\n");
      assert s == s[..i] + "\n" + s[i + 1..];
      assert a + s == (a + s[..i]) + "\n" + s[i + 1..];
      SplitAt(a + s[..i], s[i + 1..], "\n");
    } else {
      SplitWithout(s, "\n");
      SplitWithout(a + s, "\n");
    }
  }

  lemma {:induction false} FirstNewline(s: string) returns (i: nat)
    requires '\n' in s
    ensures i < |s| && s[i] == '\n' && '\n' !in s[..i]
  {
    if s[0] == '\n' {
      i := 0;
    } else {
      assert '\n' in s[1..];
      var j := FirstNewline(s[1..]);
      i := j + 1;
      assert s[..i] == [s[0]] + s[1..][..j];
    }
  }

  /** A line that does not start with a digit is not a cue line. */
  lemma NotCueLine(line: string)
    requires |line| > 0 && !IsDigit(line[0])
    ensures CaptionHead(line).None?
  {
    assert !SexagesimalAt(line, 0);
  }


  /** The lines of an inline comment: `NOTE` and the first payload line, then the other payload lines. */
  lemma InlineCommentLines(b: Block)
    requires b.Comment? && b.inline && Storable(b)
    ensures BlockLines(b, StrFixed) == ["NOTE " + Split(b.payload, "\n")[0]] + Split(b.payload, "\n")[1..] + [""]
  {
    var lines := Split(b.payload, "\n");
    assert lines[0] in lines;
    NoBreaksNoNewline(lines[0]);
    SplitAfterPrefix("NOTE ", b.payload);
  }

  /** The lines of a comment that is not inline: `NOTE`, then the payload lines. */
  lemma BlockCommentLines(b: Block)
    requires b.Comment? && !b.inline
    ensures b.payload == "" ==> BlockLines(b, StrFixed) == ["NOTE"] + [] + [""]
    ensures b.payload != "" ==> BlockLines(b, StrFixed) == ["NOTE"] + Split(b.payload, "\n") + [""]
  {
    if b.payload == "" {
      assert StrFixed(b) == "NOTE";
      SplitWithout("NOTE", "\n");
    } else {
      assert StrFixed(b) == "NOTE" + "\n" + b.payload;
      SplitAt("NOTE", b.payload, "\n");
    }
  }

  lemma InlineCommentOpens(g: string)
    requires g != "" && '\n' !in g
    ensures Opens("NOTE " + g, Current) == Some(OpensComment(Some(g)))
  {
    assert ("NOTE " + g)[0] == 'N';
    NotCueLine("NOTE " + g);
    CommentHeadInline(g);
  }

  lemma CommentOpens()
    ensures Opens("NOTE", Current) == Some(OpensComment(None))
  {
    NotCueLine("NOTE");
    CommentHeadBare();
  }

  /** An inline comment's lines read back as its entry. */
  lemma ScanInlineComment(b: Block, rest: seq<string>)
    requires b.Comment? && b.inline && Storable(b)
    ensures Scan(BlockLines(b, StrFixed) + rest, "", Current) == Prepend(EntryFor(b), Scan(rest, "", Current))
  {
    var p := b.payload;
    var lines := Split(p, "\n");
    InlineCommentLines(b);
    BodyLinesOf(p);
    assert [lines[0]] + lines[1..] == lines;
    assert forall k :: 0 <= k < |lines[1..]| ==> lines[1..][k] != "" by {
      forall k | 0 <= k < |lines[1..]|
        ensures lines[1..][k] != ""
      {
        assert lines[1..][k] == lines[k + 1];
      }
    }
    InlineCommentOpens(lines[0]);
    ScanClosedBlock("NOTE " + lines[0], lines[1..], rest, "", EntryFor(b), Current);
  }

  /** A comment's lines read back as its entry. */
  lemma ScanComment(b: Block, rest: seq<string>)
    requires b.Comment? && Storable(b)
    ensures Scan(BlockLines(b, StrFixed) + rest, "", Current) == Prepend(EntryFor(b), Scan(rest, "", Current))
  {
    var p := b.payload;
    if b.inline {
      ScanInlineComment(b, rest);
    } else {
      BlockCommentLines(b);
      CommentOpens();
      if p == "" {
        assert Terminated([]) == "";
        ScanClosedBlock("NOTE", [], rest, "", EntryFor(b), Current);
      } else {
        BodyLinesOf(p);
        ScanPayloadBlock("NOTE", p, rest, "", EntryFor(b));
      }
    }
  }

  /** The header line of a style or region block, as the corrected writer puts it. */
  function HeaderText(kind: HeaderKind): string {
    if kind == StyleHeader then "STYLE" else "REGION"
  }

  lemma HeaderOpens(kind: HeaderKind)
    ensures Opens(HeaderText(kind), Current) == Some(OpensHeader(kind))
  {
    var h := HeaderText(kind);
    assert !SexagesimalAt(h, 0);
    assert h[..4] != "NOTE";
    RStripKeeps(h, IsBlank);
  }

  /** A style or region block, as the corrected writer puts it, reads back as its entry. */
  lemma ScanHeader(b: Block, rest: seq<string>)
    requires (b.Style? || b.Region?) && Storable(b)
    ensures Scan(BlockLines(b, StrFixed) + rest, "", Current) == Prepend(EntryFor(b), Scan(rest, "", Current))
  {
    var kind := if b.Style? then StyleHeader else RegionHeader;
    var h := HeaderText(kind);
    HeaderOpens(kind);
    assert StrFixed(b) == h + "\n" + b.payload;
    SplitAt(h, b.payload, "\n");
    BodyLinesOf(b.payload);
    ScanPayloadBlock(h, b.payload, rest, "", EntryFor(b));
  }

  lemma ScanBlock(b: Block, rest: seq<string>)
    requires Storable(b)
    ensures Scan(BlockLines(b, StrFixed) + rest, "", Current) == Prepend(EntryFor(b), Scan(rest, "", Current))
  {
    if b.Caption? {
      ScanCaption(b, rest);
    } else if b.Comment? {
      ScanComment(b, rest);
    } else {
      ScanHeader(b, rest);
    }
  }

  lemma {:induction false} ScanAllLines(blocks: seq<Block>)
    requires forall b <- blocks :: Storable(b)
    ensures Scan(AllLines(blocks, StrFixed), "", Current) == Ok(Seqs.Map(EntryFor, blocks))
    decreases |blocks|
  {
    if |blocks| > 0 {
      var b, tail := blocks[0], blocks[1..];
      assert b in blocks;
      assert forall x <- tail :: x in blocks;
      Seqs.MapCons(EntryFor, blocks);
      ScanAllLines(tail);
      ScanBlock(b, AllLines(tail, StrFixed));
    }
  }

  lemma SplitNoBreaks(p: string)
    requires PayloadOk(p)
    ensures forall l <- Split(p, "\n") :: NoBreaks(l)
  {
    if p == "" {
      assert Split(p, "\n") == [""];
    }
  }

  /** A first line, more lines and the closing empty line, none with a line break. */
  lemma FramedNoBreaks(first: string, mid: seq<string>)
    requires NoBreaks(first) && forall l <- mid :: NoBreaks(l)
    ensures forall l <- [first] + mid + [""] :: NoBreaks(l)
  {
  }

  lemma InlineCommentNoBreaks(b: Block)
    requires b.Comment? && b.inline && Storable(b)
    ensures forall l <- BlockLines(b, StrFixed) :: NoBreaks(l)
  {
    var lines := Split(b.payload, "\n");
    var head := "NOTE " + lines[0];
    InlineCommentLines(b);
    assert lines[0] in lines;
    NoBreaksConcat("NOTE ", lines[0]);
    assert forall l <- lines[1..] :: NoBreaks(l) by {
      forall l <- lines[1..]
        ensures NoBreaks(l)
      {
        assert l in lines;
      }
    }
    FramedNoBreaks(head, lines[1..]);
  }

  lemma BlockCommentNoBreaks(b: Block)
    requires b.Comment? && !b.inline && PayloadOk(b.payload)
    ensures forall l <- BlockLines(b, StrFixed) :: NoBreaks(l)
  {
    BlockCommentLines(b);
    if b.payload == "" {
      FramedNoBreaks("NOTE", []);
    } else {
      SplitNoBreaks(b.payload);
      FramedNoBreaks("NOTE", Split(b.payload, "\n"));
    }
  }


  lemma CaptionLinesNoBreaks(b: Block)
    requires b.Caption? && Storable(b)
    ensures forall l <- BlockLines(b, StrFixed) :: NoBreaks(l)
  {
    SplitNoBreaks(b.payload);
    CaptionLines(b);
    CueLineNoBreaks(b.startTime, b.endTime, b.settings);
  }

  lemma HeaderLines(b: Block)
    requires (b.Style? || b.Region?)
    ensures BlockLines(b, StrFixed) == [HeaderText(if b.Style? then StyleHeader else RegionHeader)] + Split(b.payload, "\n") + [""]
  {
    var h := HeaderText(if b.Style? then StyleHeader else RegionHeader);
    assert StrFixed(b) == h + "\n" + b.payload;
    SplitAt(h, b.payload, "\n");
  }

  lemma BlockLinesNoBreaks(b: Block)
    requires Storable(b)
    ensures forall l <- BlockLines(b, StrFixed) :: NoBreaks(l)
  {
    if b.Caption? {
      CaptionLinesNoBreaks(b);
    } else if b.Comment? {
      if b.inline {
        InlineCommentNoBreaks(b);
      } else {
        BlockCommentNoBreaks(b);
      }
    } else {
      SplitNoBreaks(b.payload);
      HeaderLines(b);
    }
  }

  lemma {:induction false} AllLinesNoBreaks(blocks: seq<Block>)
    requires forall b <- blocks :: Storable(b)
    ensures forall l <- AllLines(blocks, StrFixed) :: NoBreaks(l)
    decreases |blocks|
  {
    if |blocks| > 0 {
      assert blocks[0] in blocks;
      assert forall b <- blocks[1..] :: b in blocks;
      BlockLinesNoBreaks(blocks[0]);
      AllLinesNoBreaks(blocks[1..]);
    }
  }

  /** Reading a document is reading the lines of its blocks. */
  lemma DocumentScan(blocks: seq<Block>, text: Block -> string)
    requires forall l <- AllLines(blocks, text) :: NoBreaks(l)
    ensures Scan(SplitLines(RStrip("WEBVTT\n\n" + Concat(blocks, text), IsNewline)), "", Current)
            == Scan(AllLines(blocks, text), "", Current)
  {
    DocumentLines(blocks, text);
    ScanTrimEmpty(["WEBVTT", ""] + AllLines(blocks, text), "");
    ScanDocument(AllLines(blocks, text));
  }

  lemma {:induction false} EntriesRoundTrip(blocks: seq<Block>)
    requires forall b <- blocks :: Storable(b)
    ensures Seqs.Map(ToBlockFixed, Seqs.Map(EntryFor, blocks)) == blocks
  {
    var entries := Seqs.Map(EntryFor, blocks);
    forall i | 0 <= i < |blocks|
      ensures ToBlockFixed(entries[i]) == blocks[i]
    {
      assert blocks[i] in blocks;
    }
  }

  /**
   * Round trip of the corrected pair: every document of storable blocks is
   * read back to the same blocks.
   */
  lemma LoadsDumpsFixed(blocks: seq<Block>)
    requires forall b <- blocks :: Storable(b)
    ensures LoadsFixed(DumpsFixed(blocks)) == Ok(blocks)
  {
    EntriesRoundTrip(blocks);
    AllLinesNoBreaks(blocks);
    DocumentScan(blocks, StrFixed);
    ScanAllLines(blocks);
  }

  lemma {:induction false} ConcatSame(blocks: seq<Block>)
    requires forall b <- blocks :: !b.Style? && !b.Region?
    ensures Concat(blocks, Str) == Concat(blocks, StrFixed)
    decreases |blocks|
  {
    if |blocks| > 0 {
      assert blocks[0] in blocks;
      assert forall b <- blocks[1..] :: b in blocks;
      ConcatSame(blocks[1..]);
    }
  }

  /** Round trip as written, for documents of captions and comments. */
  lemma LoadsDumps(blocks: seq<Block>)
    requires forall b <- blocks :: Storable(b) && !b.Style? && !b.Region?
    ensures Loads(Dumps(blocks)) == Ok(blocks)
  {
    AsRegionKeeps(blocks);
    ConcatSame(blocks);
    assert Dumps(blocks) == DumpsFixed(blocks);
    LoadsDumpsFixed(blocks);
    LoadsIsLoadsFixedWithRegions(Dumps(blocks));
  }

  lemma AsRegionKeeps(blocks: seq<Block>)
    requires forall b <- blocks :: !b.Style?
    ensures Seqs.Map(AsRegion, blocks) == blocks
  {
    forall i | 0 <= i < |blocks|
      ensures AsRegion(blocks[i]) == blocks[i]
    {
      assert blocks[i] in blocks;
    }
  }

  // ---------------------------------------------------------------- as written

  /** As written, a one-block document reads as the block's text, when that is a single line. */
  lemma OneLineDocument(b: Block)
    requires NoBreaks(Str(b))
    ensures Scan(SplitLines(Dumps([b])), "", Current) == Scan([Str(b)] + [""], "", Current)
  {
    var line := Str(b);
    NoBreaksNoNewline(line);
    SplitWithout(line, "\n");
    assert AllLines([b], Str) == [line] + [""];
    DocumentScan([b], Str);
  }

  /**
   * As written, a style or region block with a payload on one line is not
   * read back at all: `STYLE payload` and `REGION payload` open nothing.
   */
  lemma HeaderBlockDroppedAsWritten(b: Block)
    requires b.Style? || b.Region?
    requires NoBreaks(b.payload) && b.payload != "" && !IsBlank(b.payload[|b.payload| - 1])
    ensures Loads(Dumps([b])) == Ok([])
  {
    var line := Str(b);
    OneLineHeaderPlain(b);
    OneLineDocument(b);
    ScanPlain(line, [""], "", Current);
    ScanEmptyLine([], line);
  }

  /** `STYLE payload` and `REGION payload` on one line open nothing. */
  lemma OneLineHeaderPlain(b: Block)
    requires b.Style? || b.Region?
    requires NoBreaks(b.payload) && b.payload != "" && !IsBlank(b.payload[|b.payload| - 1])
    ensures NoBreaks(Str(b)) && Plain(Str(b), Current)
  {
    var h := HeaderText(if b.Style? then StyleHeader else RegionHeader);
    assert Str(b) == h + " " + b.payload;
    NoBreaksConcat(h + " ", b.payload);
    HeaderWordLinePlain(h, b.payload);
  }

  lemma HeaderWordLinePlain(h: string, p: string)
    requires h == "STYLE" || h == "REGION"
    requires p != "" && !IsBlank(p[|p| - 1])
    ensures Plain(h + " " + p, Current)
  {
    var line := h + " " + p;
    assert line[0] == h[0];
    NotCueLine(line);
    assert line[..4] != "NOTE";
    assert CommentHead(line).None?;
    assert line[|line| - 1] == p[|p| - 1];
    RStripKeeps(line, IsBlank);
    assert |line| > 6;
    PlainLine(line);
  }


  /** A line that is no cue line, no comment header and no header line opens nothing. */
  lemma PlainLine(line: string)
    requires CaptionHead(line).None? && CommentHead(line).None?
    requires !IsHeaderLine(line, "REGION") && !IsHeaderLine(line, "STYLE")
    ensures Plain(line, Current)
  {
  }



  lemma StyleLineOpens()
    ensures Opens("STYLE ", Current) == Some(OpensHeader(StyleHeader))
  {
    var line := "STYLE ";
    assert !SexagesimalAt(line, 0);
    assert line[..4] != "NOTE";
    assert RStrip(line, IsBlank) == "STYLE" by {
      assert line == "STYLE" + " ";
      RStripKeeps("STYLE", IsBlank);
    }
  }

  /** A header line followed by the empty line: a header block with an empty payload. */
  lemma BareHeaderScan(line: string, kind: HeaderKind, rest: seq<string>)
    requires Opens(line, Current) == Some(OpensHeader(kind))
    ensures Scan([line] + [] + [""] + rest, "", Current) == Prepend(HeaderEntry(kind, ""), Scan(rest, "", Current))
  {
    assert EntryOf(OpensHeader(kind), "", []) == Ok(HeaderEntry(kind, "")) by {
      assert Terminated([]) == "";
    }
    ScanClosedBlock(line, [], rest, "", HeaderEntry(kind, ""), Current);
  }

  /** As written, a block whose one line is a bare header line reads back as an empty region block. */
  lemma BareHeaderDocument(b: Block, kind: HeaderKind)
    requires NoBreaks(Str(b))
    requires Opens(Str(b), Current) == Some(OpensHeader(kind))
    ensures Loads(Dumps([b])) == Ok([Region("")])
  {
    var e := HeaderEntry(kind, "");
    assert [Str(b)] + [""] == [Str(b)] + [] + [""] + [];
    assert Seqs.Map(ToBlock, [e]) == [Region("")];
    BareHeaderScan(Str(b), kind, []);
    assert Scan([], "", Current) == Ok([]);
    assert [e] + [] == [e];
    OneLineDocument(b);
    LoadsOfScan(Dumps([b]), [e]);
  }

  lemma LoadsOfScan(data: string, entries: seq<Entry>)
    requires Scan(SplitLines(data), "", Current) == Ok(entries)
    ensures Loads(data) == Ok(Seqs.Map(ToBlock, entries))
  {
  }

  /** As written, an empty style block comes back as an empty region block. */
  lemma StyleBecomesRegionAsWritten()
    ensures Loads(Dumps([Style("")])) == Ok([Region("")])
  {
    assert Str(Style("")) == "STYLE ";
    StyleLineOpens();
    BareHeaderDocument(Style(""), StyleHeader);
  }

  /** The corrected pair keeps every style and region block, the ones the pair as written loses or changes included. */
  lemma HeaderBlockFixed(b: Block)
    requires (b.Style? || b.Region?) && PayloadOk(b.payload)
    ensures LoadsFixed(DumpsFixed([b])) == Ok([b])
  {
    assert forall x <- [b] :: Storable(x);
    LoadsDumpsFixed([b]);
  }
}
