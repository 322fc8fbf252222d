/**
 * The legacy subtitle model (`isubrip/webvtt.py` and `isubrip/subtitles.py`).
 * Its blocks carry no modified flag; one `Caption.to_string` renders both
 * WebVTT and SubRip; duplicates are removed and right-to-left fixing is
 * applied when a block is appended, under class-wide settings.
 *
 * The right-to-left characters and the caption pattern come from a
 * constants module that is not part of this model, so they are parameters.
 * The reader is the line loop of `VttScan` over a caller-given `Syntax`.
 */
module Legacy {
  import opened Results
  import opened Strings
  import opened Timing
  import opened VttScan
  import Rtl
  import Seqs
  import Blocks
  import SubRip
  import WebVtt

  datatype Block =
    | Caption(startTime: Time, endTime: Time, payload: string, settings: string, identifier: string)
    | Comment(payload: string, inline: bool)
    | Style(payload: string)
    | Region(payload: string)

  /** `SubtitlesFormat` of the legacy code. */
  datatype Format = Vtt | Srt

  /** `__eq__` of each block class: captions compare timings and payload only. */
  predicate Same(a: Block, b: Block) {
    match (a, b)
    case (Caption(s1, e1, p1, _, _), Caption(s2, e2, p2, _, _)) => s1 == s2 && e1 == e2 && p1 == p2
    case (Comment(p1, i1), Comment(p2, i2)) => i1 == i2 && p1 == p2
    case (Style(p1), Style(p2)) => p1 == p2
    case (Region(p1), Region(p2)) => p1 == p2
    case _ => false
  }

  /**
   * `Caption.to_string`: for WebVTT the identifier line when there is one,
   * the timings with `.`, then a space and the settings even when they are
   * empty; for SubRip the timings with `,` and no settings.
   */
  function ToString(b: Block, format: Format): (r: string)
    requires b.Caption?
    ensures format == Srt ==> r == Blocks.TimingLine(b.startTime, b.endTime, ',') + "\n" + b.payload
  {
    var id := if format == Vtt && b.identifier != "" then b.identifier + "\n" else "";
    var sep := if format == Vtt then '.' else ',';
    var settings := if format == Vtt then " " + b.settings + "\n" else "\n";
    id + Blocks.TimingLine(b.startTime, b.endTime, sep) + settings + b.payload
  }

  /** `str(block)`: WebVTT rendering for captions, `NOTE`, `STYLE` and `REGION` forms for the rest. */
  function Str(b: Block): string {
    match b
    case Caption(_, _, _, _, _) => ToString(b, Vtt)
    case Comment(p, inline) => Blocks.CommentText(p, inline)
    case Style(p) => "STYLE " + p
    case Region(p) => "REGION " + p
  }

  /** The same caption in the current model. */
  function AsCurrent(b: Block): Blocks.Block
    requires b.Caption?
  {
    Blocks.Caption(b.startTime, b.endTime, b.payload, b.settings, b.identifier, false)
  }

  /**
   * The legacy WebVTT rendering of a caption is the current one when it has
   * settings; without settings it has a trailing space on the timing line.
   */
  lemma CaptionTextAgainstCurrent(b: Block)
    requires b.Caption?
    ensures b.settings != "" ==> Str(b) == Blocks.Str(AsCurrent(b))
    ensures b.settings == "" ==> (Str(b)
      == (if b.identifier != "" then b.identifier + "\n" else "")
         + Blocks.TimingLine(b.startTime, b.endTime, '.') + " \n" + b.payload)
  {
  }

  /** The block of the current model with the same class and fields. */
  function ToCurrent(b: Block): Blocks.Block {
    match b
    case Caption(s, e, p, settings, id) => Blocks.Caption(s, e, p, settings, id, false)
    case Comment(p, inline) => Blocks.Comment(p, inline)
    case Style(p) => Blocks.Style(p)
    case Region(p) => Blocks.Region(p)
  }

  /** Legacy and current `==` agree on every pair of blocks. */
  lemma SameAgainstCurrent(a: Block, b: Block)
    ensures Same(a, b) <==> Blocks.Same(ToCurrent(a), ToCurrent(b))
  {
  }

  /**
   * Every block renders as its current counterpart, except a caption
   * without settings, whose legacy timing line ends in a space.
   */
  lemma StrAgainstCurrent(b: Block)
    ensures !(b.Caption? && b.settings == "") ==> Str(b) == Blocks.Str(ToCurrent(b))
    ensures b.Caption? && b.settings == "" ==> Str(b) != Blocks.Str(ToCurrent(b))
  {
    if b.Caption? {
      CaptionTextAgainstCurrent(b);
      if b.settings == "" {
        var id := if b.identifier != "" then b.identifier + "\n" else "";
        var line := Blocks.TimingLine(b.startTime, b.endTime, '.');
        assert |Str(b)| == |id| + |line| + 2 + |b.payload|;
        assert |Blocks.Str(ToCurrent(b))| == |id| + |line| + 1 + |b.payload|;
      }
    }
  }

  /** The SubRip rendering of a caption is the current SubRip block's text. */
  lemma SrtTextAgainstCurrent(b: Block)
    requires b.Caption?
    ensures ToString(b, Srt) == Blocks.Str(Blocks.SubRipCaption(b.startTime, b.endTime, b.payload, false))
  {
  }

  /** `Caption.fix_rtl` with the given mark and control characters; timings, identifier and settings stay. */
  function FixRtl(b: Block, mark: char, controls: seq<char>): (r: Block)
    requires b.Caption?
    ensures r.Caption? && r.startTime == b.startTime && r.endTime == b.endTime
    ensures r.identifier == b.identifier && r.settings == b.settings
    ensures |r.payload| > 0 && r.payload[0] == mark
  {
    Caption(b.startTime, b.endTime, Rtl.Fix(b.payload, mark, controls), b.settings, b.identifier)
  }

  // ---------------------------------------------------------------- the subtitles object

  /**
   * The class attributes `remove_duplicates`, `fix_rtl` and `rtl_languages`,
   * and the `RTL_CHAR` and `RTL_CONTROL_CHARS` constants.
   */
  datatype Config = Config(
    removeDuplicates: bool,
    fixRtl: bool,
    rtlLanguages: seq<string>,
    mark: char,
    controls: seq<char>)

  /** A legacy `Subtitles` object; `loads` builds one without a language code. */
  datatype Subtitles = Subtitles(languageCode: Option<string>, blocks: seq<Block>)

  /** A caption is fixed when fixing is on and the whole language code is a right-to-left language. */
  predicate FixesRtl(cfg: Config, languageCode: Option<string>) {
    cfg.fixRtl && languageCode.Some? && languageCode.value in cfg.rtlLanguages
  }

  /** The block as it is appended: fixed when it is a caption and fixing applies. */
  function Prepared(cfg: Config, languageCode: Option<string>, b: Block): (r: Block)
    ensures !FixesRtl(cfg, languageCode) || !b.Caption? ==> r == b
  {
    if b.Caption? && FixesRtl(cfg, languageCode) then FixRtl(b, cfg.mark, cfg.controls) else b
  }

  /** The test of `add_block`: duplicates are removed and the block equals the last block. */
  predicate SkipsAfter(cfg: Config, blocks: seq<Block>, b: Block) {
    cfg.removeDuplicates && |blocks| > 0 && Same(blocks[|blocks| - 1], b)
  }

  /**
   * `add_block` as written: the block is compared with the last block
   * before it is fixed, and appended (fixed when fixing applies) unless equal.
   */
  function AddBlockAsWritten(cfg: Config, s: Subtitles, b: Block): (r: Subtitles)
    ensures r.languageCode == s.languageCode
    ensures SkipsAfter(cfg, s.blocks, b) ==> r.blocks == s.blocks
    ensures !SkipsAfter(cfg, s.blocks, b) ==> r.blocks == s.blocks + [Prepared(cfg, s.languageCode, b)]
  {
    if SkipsAfter(cfg, s.blocks, b) then s
    else s.(blocks := s.blocks + [Prepared(cfg, s.languageCode, b)])
  }

  /**
   * `add_block` as evidently intended: the block is fixed first, then
   * compared with the last block, which was fixed when it was appended.
   */
  function AddBlock(cfg: Config, s: Subtitles, b: Block): (r: Subtitles)
    ensures r.languageCode == s.languageCode
    ensures |s.blocks| <= |r.blocks| <= |s.blocks| + 1 && r.blocks[..|s.blocks|] == s.blocks
    ensures |r.blocks| == |s.blocks| <==> SkipsAfter(cfg, s.blocks, Prepared(cfg, s.languageCode, b))
    ensures |r.blocks| > |s.blocks| ==> r.blocks[|s.blocks|] == Prepared(cfg, s.languageCode, b)
  {
    var prepared := Prepared(cfg, s.languageCode, b);
    if SkipsAfter(cfg, s.blocks, prepared) then s
    else
      var r := s.(blocks := s.blocks + [prepared]);
      assert r.blocks[..|s.blocks|] == s.blocks;
      r
  }

  /** Without right-to-left fixing, the two orders of fixing and comparing agree. */
  lemma AddBlockAgrees(cfg: Config, s: Subtitles, b: Block)
    requires !FixesRtl(cfg, s.languageCode)
    ensures AddBlockAsWritten(cfg, s, b) == AddBlock(cfg, s, b)
  {
  }

  /** No block equals the block after it. */
  predicate NoAdjacentSame(xs: seq<Block>) {
    forall i :: 0 <= i < |xs| - 1 ==> !Same(xs[i], xs[i + 1])
  }

  /** With duplicates removed, appending through `AddBlock` never puts two equal blocks side by side. */
  lemma AddBlockKeepsNoAdjacentSame(cfg: Config, s: Subtitles, b: Block)
    requires cfg.removeDuplicates && NoAdjacentSame(s.blocks)
    ensures NoAdjacentSame(AddBlock(cfg, s, b).blocks)
  {
    var r := AddBlock(cfg, s, b).blocks;
    forall i | 0 <= i < |r| - 1
      ensures !Same(r[i], r[i + 1])
    {
      if i + 1 < |s.blocks| {
        assert r[i] == s.blocks[i] && r[i + 1] == s.blocks[i + 1];
      }
    }
  }

  /**
   * With right-to-left fixing on, a caption followed by an equal caption (a
   * distinct object) keeps both: the second is compared unfixed with the
   * fixed first. The same object appended twice would be fixed in place and
   * skipped; objects are not modelled.
   */
  lemma RtlDuplicateKeptAsWritten(cfg: Config, language: string, c: Block)
    requires cfg.removeDuplicates && cfg.fixRtl && language in cfg.rtlLanguages
    requires c.Caption? && (c.payload == [] || c.payload[0] != cfg.mark)
    ensures var s := Subtitles(Some(language), []);
      var once := AddBlockAsWritten(cfg, s, c);
      var twice := AddBlockAsWritten(cfg, once, c);
      |twice.blocks| == 2 && Same(twice.blocks[0], twice.blocks[1])
  {
    var s := Subtitles(Some(language), []);
    var fc := FixRtl(c, cfg.mark, cfg.controls);
    var once := AddBlockAsWritten(cfg, s, c);
    assert once.blocks == [fc];
    assert !Same(fc, c);
  }

  /** The corrected `add_block` keeps the same caption once. */
  lemma RtlDuplicateSkipped(cfg: Config, language: string, c: Block)
    requires cfg.removeDuplicates && cfg.fixRtl && language in cfg.rtlLanguages
    requires c.Caption?
    ensures var s := Subtitles(Some(language), []);
      |AddBlock(cfg, AddBlock(cfg, s, c), c).blocks| == 1
  {
    var s := Subtitles(Some(language), []);
    var once := AddBlock(cfg, s, c);
    assert once.blocks == [FixRtl(c, cfg.mark, cfg.controls)];
  }

  /** `add_block` over each block in turn, the loop of `append_subtitles`. */
  function AddAll(cfg: Config, s: Subtitles, bs: seq<Block>): (r: Subtitles)
    ensures r.languageCode == s.languageCode
    decreases |bs|
  {
    if |bs| == 0 then s else AddAll(cfg, AddBlock(cfg, s, bs[0]), bs[1..])
  }

  /** `append_subtitles`: every block of the other object goes through `add_block`, in order. */
  function AppendSubtitles(cfg: Config, s: Subtitles, other: Subtitles): (r: Subtitles)
    ensures r.languageCode == s.languageCode
  {
    AddAll(cfg, s, other.blocks)
  }

  /** `__add__`: one block through `add_block`. */
  function Add(cfg: Config, s: Subtitles, b: Block): (r: Subtitles)
    ensures |s.blocks| <= |r.blocks| <= |s.blocks| + 1
  {
    AddBlock(cfg, s, b)
  }

  // ---------------------------------------------------------------- appending as written

  /** The loop of `append_subtitles` over `add_block` as written. */
  function AddAllAsWritten(cfg: Config, s: Subtitles, bs: seq<Block>): (r: Subtitles)
    ensures r.languageCode == s.languageCode
    decreases |bs|
  {
    if |bs| == 0 then s else AddAllAsWritten(cfg, AddBlockAsWritten(cfg, s, bs[0]), bs[1..])
  }

  /** `append_subtitles` as written. */
  function AppendSubtitlesAsWritten(cfg: Config, s: Subtitles, other: Subtitles): (r: Subtitles)
    ensures r.languageCode == s.languageCode
  {
    AddAllAsWritten(cfg, s, other.blocks)
  }

  /**
   * `__add__` as written: the block is skipped exactly when duplicates are
   * removed and it equals the last block unfixed; otherwise it is appended,
   * fixed when fixing applies.
   */
  function AddAsWritten(cfg: Config, s: Subtitles, b: Block): (r: Subtitles)
    ensures r.languageCode == s.languageCode
    ensures |r.blocks| == |s.blocks| <==> SkipsAfter(cfg, s.blocks, b)
    ensures |r.blocks| != |s.blocks| ==> r.blocks == s.blocks + [Prepared(cfg, s.languageCode, b)]
  {
    AddBlockAsWritten(cfg, s, b)
  }

  /** Appending as written keeps the blocks already there, as a prefix, and adds at most one block per block given. */
  lemma {:induction false} AddAllAsWrittenPrefix(cfg: Config, s: Subtitles, bs: seq<Block>)
    ensures var r := AddAllAsWritten(cfg, s, bs).blocks; |s.blocks| <= |r| <= |s.blocks| + |bs| && r[..|s.blocks|] == s.blocks
    decreases |bs|
  {
    if |bs| > 0 {
      var t := AddBlockAsWritten(cfg, s, bs[0]);
      assert t.blocks[..|s.blocks|] == s.blocks;
      AddAllAsWrittenPrefix(cfg, t, bs[1..]);
      var r := AddAllAsWritten(cfg, t, bs[1..]).blocks;
      assert r[..|s.blocks|] == r[..|t.blocks|][..|s.blocks|];
    }
  }

  /** Without right-to-left fixing, appending as written and as intended give the same object. */
  lemma {:induction false} AddAllAgrees(cfg: Config, s: Subtitles, bs: seq<Block>)
    requires !FixesRtl(cfg, s.languageCode)
    ensures AddAllAsWritten(cfg, s, bs) == AddAll(cfg, s, bs)
    decreases |bs|
  {
    if |bs| > 0 {
      AddBlockAgrees(cfg, s, bs[0]);
      AddAllAgrees(cfg, AddBlock(cfg, s, bs[0]), bs[1..]);
    }
  }

  /**
   * Without right-to-left fixing, `append_subtitles` as written leaves no two
   * equal blocks side by side when duplicates are removed.
   */
  lemma AppendAsWrittenKeepsNoAdjacentSame(cfg: Config, s: Subtitles, other: Subtitles)
    requires cfg.removeDuplicates && !FixesRtl(cfg, s.languageCode) && NoAdjacentSame(s.blocks)
    ensures NoAdjacentSame(AppendSubtitlesAsWritten(cfg, s, other).blocks)
  {
    AddAllAgrees(cfg, s, other.blocks);
    AddAllKeepsNoAdjacentSame(cfg, s, other.blocks);
  }

  /**
   * With right-to-left fixing, appending an object that holds two equal
   * captions (distinct objects) to an empty right-to-left object keeps both,
   * side by side.
   */
  lemma AppendRtlDuplicateKeptAsWritten(cfg: Config, language: string, c: Block)
    requires cfg.removeDuplicates && cfg.fixRtl && language in cfg.rtlLanguages
    requires c.Caption? && (c.payload == [] || c.payload[0] != cfg.mark)
    ensures var r := AppendSubtitlesAsWritten(cfg, Subtitles(Some(language), []), Subtitles(None, [c, c]));
      |r.blocks| == 2 && !NoAdjacentSame(r.blocks)
  {
    var s := Subtitles(Some(language), []);
    RtlDuplicateKeptAsWritten(cfg, language, c);
    var once := AddBlockAsWritten(cfg, s, c);
    var twice := AddBlockAsWritten(cfg, once, c);
    assert [c, c][1..] == [c] && [c][1..] == [];
    assert AddAllAsWritten(cfg, once, [c]) == AddAllAsWritten(cfg, twice, []) == twice;
    assert AddAllAsWritten(cfg, s, [c, c]) == AddAllAsWritten(cfg, once, [c]);
  }

  /** Appending keeps the blocks already there, as a prefix. */
  lemma {:induction false} AddAllPrefix(cfg: Config, s: Subtitles, bs: seq<Block>)
    ensures var r := AddAll(cfg, s, bs).blocks; |s.blocks| <= |r| <= |s.blocks| + |bs| && r[..|s.blocks|] == s.blocks
    decreases |bs|
  {
    if |bs| > 0 {
      var t := AddBlock(cfg, s, bs[0]);
      AddAllPrefix(cfg, t, bs[1..]);
      var r := AddAll(cfg, t, bs[1..]).blocks;
      assert r[..|s.blocks|] == r[..|t.blocks|][..|s.blocks|];
    }
  }

  /**
   * With duplicates removed, no two equal blocks end up side by side, at the
   * seam between the two objects included.
   */
  lemma {:induction false} AppendKeepsNoAdjacentSame(cfg: Config, s: Subtitles, other: Subtitles)
    requires cfg.removeDuplicates && NoAdjacentSame(s.blocks)
    ensures NoAdjacentSame(AppendSubtitles(cfg, s, other).blocks)
  {
    AddAllKeepsNoAdjacentSame(cfg, s, other.blocks);
  }

  lemma {:induction false} AddAllKeepsNoAdjacentSame(cfg: Config, s: Subtitles, bs: seq<Block>)
    requires cfg.removeDuplicates && NoAdjacentSame(s.blocks)
    ensures NoAdjacentSame(AddAll(cfg, s, bs).blocks)
    decreases |bs|
  {
    if |bs| > 0 {
      AddBlockKeepsNoAdjacentSame(cfg, s, bs[0]);
      AddAllKeepsNoAdjacentSame(cfg, AddBlock(cfg, s, bs[0]), bs[1..]);
    }
  }

  /** The preparation of `add_block` as a function value, for `Seqs.Map`. */
  function Preparer(cfg: Config, languageCode: Option<string>): Block -> Block {
    b => Prepared(cfg, languageCode, b)
  }

  /** Without duplicate removal, `add_block` appends the prepared block. */
  lemma AddBlockWithoutDedupe(cfg: Config, s: Subtitles, b: Block)
    requires !cfg.removeDuplicates
    ensures AddBlock(cfg, s, b).blocks == s.blocks + [Prepared(cfg, s.languageCode, b)]
  {
  }

  /** Without duplicate removal, appending adds every block, prepared, in order. */
  lemma {:induction false} AddAllWithoutDedupe(cfg: Config, s: Subtitles, bs: seq<Block>)
    requires !cfg.removeDuplicates
    ensures AddAll(cfg, s, bs).blocks == s.blocks + Seqs.Map(Preparer(cfg, s.languageCode), bs)
    decreases |bs|
  {
    var f := Preparer(cfg, s.languageCode);
    if |bs| == 0 {
      assert s.blocks + Seqs.Map(f, bs) == s.blocks;
    } else {
      var t := AddBlock(cfg, s, bs[0]);
      AddBlockWithoutDedupe(cfg, s, bs[0]);
      AddAllWithoutDedupe(cfg, t, bs[1..]);
      assert AddAll(cfg, s, bs) == AddAll(cfg, t, bs[1..]);
      Seqs.MapCons(f, bs);
      var x := f(bs[0]);
      var m := Seqs.Map(f, bs[1..]);
      assert t.blocks == s.blocks + [x];
      Seqs.ConcatAssoc(s.blocks, [x], m);
    }
  }

  // ---------------------------------------------------------------- reading

  /** The block built for what the line loop read; a `STYLE` header builds a `Region`. */
  function ToBlock(e: Entry): (b: Block)
    ensures !b.Style?
  {
    match e
    case CaptionEntry(id, s, t, settings, p) => Caption(s, t, p, settings, id)
    case CommentEntry(p, inline) => Comment(p, inline)
    case HeaderEntry(_, p) => Region(p)
  }

  /**
   * `Subtitles.loads`: the line loop over `splitlines()`, each block
   * appended through `add_block` to an object without a language code.
   */
  function Loads(cfg: Config, syn: Syntax, data: string): (r: Result<Subtitles, TimeError>)
    ensures r.Ok? ==> r.value.languageCode.None?
  {
    var entries :- Scan(SplitLines(data), "", syn);
    Ok(AddAllAsWritten(cfg, Subtitles(None, []), Seqs.Map(ToBlock, entries)))
  }

  lemma {:induction false} AddAllIgnoresRtl(cfg: Config, s: Subtitles, bs: seq<Block>)
    requires s.languageCode.None?
    ensures AddAll(cfg, s, bs) == AddAll(cfg.(fixRtl := false), s, bs)
    decreases |bs|
  {
    if |bs| > 0 {
      assert AddBlock(cfg, s, bs[0]) == AddBlock(cfg.(fixRtl := false), s, bs[0]);
      AddAllIgnoresRtl(cfg, AddBlock(cfg, s, bs[0]), bs[1..]);
    }
  }

  /**
   * Reading never fixes right to left, whatever the settings, and with
   * duplicates removed it never yields two equal neighbours.
   */
  lemma LoadsProperties(cfg: Config, syn: Syntax, data: string)
    ensures Loads(cfg, syn, data) == Loads(cfg.(fixRtl := false), syn, data)
    ensures cfg.removeDuplicates && Loads(cfg, syn, data).Ok? ==> NoAdjacentSame(Loads(cfg, syn, data).value.blocks)
  {
    var lines := SplitLines(data);
    if Scan(lines, "", syn).Ok? {
      var bs := Seqs.Map(ToBlock, Scan(lines, "", syn).value);
      AddAllAgrees(cfg, Subtitles(None, []), bs);
      AddAllAgrees(cfg.(fixRtl := false), Subtitles(None, []), bs);
      AddAllIgnoresRtl(cfg, Subtitles(None, []), bs);
      if cfg.removeDuplicates {
        AddAllKeepsNoAdjacentSame(cfg, Subtitles(None, []), bs);
      }
    }
  }

  // ---------------------------------------------------------------- writing

  /** `_dumps_vtt`: the `WEBVTT` header, each block followed by a blank line, trailing newlines stripped. */
  function DumpsVtt(blocks: seq<Block>): (r: string)
    ensures StartsWith(r, "WEBVTT")
  {
    var text := "WEBVTT\n\n" + SubRip.Paragraphs(Seqs.Map(Str, blocks));
    assert text[..6] == "WEBVTT";
    RStripPrefix(text, 6, IsNewline);
    RStrip(text, IsNewline)
  }

  /** Blocks the legacy and current writers render alike: no caption without settings. */
  predicate RendersAsCurrent(blocks: seq<Block>) {
    forall b <- blocks :: b.Caption? ==> b.settings != ""
  }

  lemma {:induction false} ParagraphsAgainstCurrent(blocks: seq<Block>)
    requires RendersAsCurrent(blocks)
    ensures SubRip.Paragraphs(Seqs.Map(Str, blocks)) == WebVtt.Concat(Seqs.Map(ToCurrent, blocks), Blocks.Str)
    decreases |blocks|
  {
    if |blocks| > 0 {
      assert blocks[0] in blocks;
      StrAgainstCurrent(blocks[0]);
      assert Seqs.Map(Str, blocks)[1..] == Seqs.Map(Str, blocks[1..]);
      assert Seqs.Map(ToCurrent, blocks)[1..] == Seqs.Map(ToCurrent, blocks[1..]);
      assert RendersAsCurrent(blocks[1..]) by {
        forall b | b in blocks[1..] ensures b in blocks { }
      }
      ParagraphsAgainstCurrent(blocks[1..]);
    }
  }

  /**
   * The legacy WebVTT document is the current writer's document for the
   * same blocks, as long as every caption has settings.
   */
  lemma DumpsVttAgainstCurrent(blocks: seq<Block>)
    requires RendersAsCurrent(blocks)
    ensures DumpsVtt(blocks) == WebVtt.Dumps(Seqs.Map(ToCurrent, blocks))
  {
    ParagraphsAgainstCurrent(blocks);
  }

  /** The SubRip text of a block; only captions are ever written. */
  function SrtText(b: Block): string {
    if b.Caption? then ToString(b, Srt) else Str(b)
  }

  predicate IsCaption(b: Block) {
    b.Caption?
  }

  /** The SubRip text of the captions among `blocks`, numbered. */
  function SrtParagraphs(blocks: seq<Block>): string {
    SubRip.Paragraphs(SubRip.Numbered(Seqs.Map(SrtText, Seqs.Filter(IsCaption, blocks))))
  }

  lemma CaptionsSnoc(blocks: seq<Block>, i: nat)
    requires i < |blocks|
    ensures Seqs.Filter(IsCaption, blocks[..i + 1])
      == Seqs.Filter(IsCaption, blocks[..i]) + (if blocks[i].Caption? then [blocks[i]] else [])
  {
    assert blocks[..i + 1] == blocks[..i] + [blocks[i]];
    Seqs.FilterConcat(IsCaption, blocks[..i], [blocks[i]]);
    assert Seqs.Filter(IsCaption, [blocks[i]]) == (if blocks[i].Caption? then [blocks[i]] else []) by {
      assert [blocks[i]][1..] == [];
    }
  }

  /** One step of the writer loop: a caption adds its numbered paragraph, any other block nothing. */
  lemma SrtStep(blocks: seq<Block>, i: nat)
    requires i < |blocks|
    ensures var n := |Seqs.Filter(IsCaption, blocks[..i])|;
      && |Seqs.Filter(IsCaption, blocks[..i + 1])| == n + (if blocks[i].Caption? then 1 else 0)
      && SrtParagraphs(blocks[..i + 1])
         == SrtParagraphs(blocks[..i])
            + (if blocks[i].Caption? then SubRip.NumberedText(n + 1, ToString(blocks[i], Srt)) + "\n\n" else "")
  {
    CaptionsSnoc(blocks, i);
    if blocks[i].Caption? {
      SrtStepCaption(blocks, i);
    } else {
      assert Seqs.Filter(IsCaption, blocks[..i + 1]) == Seqs.Filter(IsCaption, blocks[..i]);
    }
  }

  lemma SrtStepCaption(blocks: seq<Block>, i: nat)
    requires i < |blocks| && blocks[i].Caption?
    requires Seqs.Filter(IsCaption, blocks[..i + 1]) == Seqs.Filter(IsCaption, blocks[..i]) + [blocks[i]]
    ensures SrtParagraphs(blocks[..i + 1])
         == SrtParagraphs(blocks[..i]) + (NatToString(|Seqs.Filter(IsCaption, blocks[..i])| + 1) + "\n" + ToString(blocks[i], Srt)) + "\n\n"
  {
    var captions := Seqs.Filter(IsCaption, blocks[..i]);
    var texts := Seqs.Map(SrtText, captions);
    Seqs.MapConcat(SrtText, captions, [blocks[i]]);
    assert Seqs.Map(SrtText, captions + [blocks[i]]) == texts + [ToString(blocks[i], Srt)];
    assert |texts| == |captions|;
    SubRip.NumberedParagraphsSnoc(texts, ToString(blocks[i], Srt));
  }

  /**
   * `_dumps_srt`: only the captions are written, numbered 1 to K in block
   * order with no gaps, as SubRip paragraphs; comments, styles and regions
   * are skipped and take no number.
   */
  method DumpsSrt(blocks: seq<Block>) returns (r: string)
    ensures r == SubRip.Render(Seqs.Map(SrtText, Seqs.Filter(IsCaption, blocks)))
  {
    var text := "";
    var count := 0;
    for i := 0 to |blocks|
      invariant count == |Seqs.Filter(IsCaption, blocks[..i])|
      invariant text == SrtParagraphs(blocks[..i])
    {
      SrtStep(blocks, i);
      if blocks[i].Caption? {
        text := text + SubRip.NumberedText(count + 1, ToString(blocks[i], Srt)) + "\n\n";
        count := count + 1;
      }
    }
    assert blocks[..|blocks|] == blocks;
    r := RStrip(text, IsNewline);
  }

  /** `dumps(format)`: the WebVTT or the SubRip form. */
  method Dumps(s: Subtitles, format: Format) returns (r: string)
    ensures format == Vtt ==> r == DumpsVtt(s.blocks)
    ensures format == Srt ==> r == SubRip.Render(Seqs.Map(SrtText, Seqs.Filter(IsCaption, s.blocks)))
  {
    if format == Vtt {
      r := DumpsVtt(s.blocks);
    } else {
      r := DumpsSrt(s.blocks);
    }
  }

  /** A document with captions only numbers every block; one without captions is empty in SubRip. */
  lemma SrtCaptionsOnly(blocks: seq<Block>)
    ensures (forall b <- blocks :: b.Caption?) ==> Seqs.Filter(IsCaption, blocks) == blocks
    ensures (forall b <- blocks :: !b.Caption?) ==> SubRip.Render(Seqs.Map(SrtText, Seqs.Filter(IsCaption, blocks))) == ""
  {
    if forall b <- blocks :: b.Caption? {
      Seqs.FilterAll(IsCaption, blocks);
    }
    if forall b <- blocks :: !b.Caption? {
      NoCaptions(blocks);
    }
  }

  lemma {:induction false} NoCaptions(blocks: seq<Block>)
    requires forall b <- blocks :: !b.Caption?
    ensures Seqs.Filter(IsCaption, blocks) == []
    decreases |blocks|
  {
    if |blocks| > 0 {
      assert blocks[0] in blocks;
      assert forall b <- blocks[1..] :: b in blocks;
      NoCaptions(blocks[1..]);
    }
  }
}
