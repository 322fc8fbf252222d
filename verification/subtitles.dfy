/**
 * The `Subtitles` object of the current model: a list of blocks with a
 * format, a language code, an encoding, the raw data it was read from and
 * a `_modified` flag. Adding blocks, appending another object, polishing
 * (right-to-left fixing and duplicate removal), dumping with raw-data
 * passthrough and conversion to SubRip.
 *
 * Text encoding is not modelled: the codec is a parameter.
 */
module Subtitles {
  import opened Results
  import opened Strings
  import opened Timing
  import opened Blocks
  import Rtl
  import Seqs
  import WebVtt
  import SubRip

  newtype byte = x: int | 0 <= x < 256

  /** The format class of a subtitles object. */
  datatype Format = WebVttFormat | SubRipFormat

  /** `bytes.decode(encoding)` and `str.encode(encoding)`. */
  datatype Codec = Codec(decode: (seq<byte>, string) -> string, encode: (string, string) -> seq<byte>)

  datatype Subtitles = Subtitles(
    format: Format,
    blocks: seq<Block>,
    languageCode: string,
    encoding: string,
    raw: Option<seq<byte>>,
    modifiedFlag: bool)

  /** Why reading raw data fails: a timing `fromisoformat` rejects, or a format without a reader. */
  datatype ReadError = BadTiming(error: TimeError) | ReadingUnsupported

  /** `modified()`: the object's own flag, or any block's flag. */
  predicate Modified(s: Subtitles) {
    s.modifiedFlag || exists b <- s.blocks :: b.IsModified()
  }

  /** The format's reader: `WebVTTSubtitles.loads` as written, and none for SubRip. */
  function Read(format: Format, text: string): (r: Result<seq<Block>, ReadError>)
    ensures r.Ok? ==> forall b <- r.value :: !b.IsModified()
  {
    match format
    case WebVttFormat => (
      match WebVtt.Loads(text)
      case Ok(blocks) => Ok(blocks)
      case Err(e) => Err(BadTiming(e)))
    case SubRipFormat => Err(ReadingUnsupported)
  }

  /** The format's writer: `WebVTTSubtitles.dumps` or `SubRipSubtitles.dumps`, as written. */
  function Render(s: Subtitles): (r: string)
    ensures s.format == WebVttFormat ==> StartsWith(r, "WEBVTT")
    ensures s.format == SubRipFormat && s.blocks == [] ==> r == ""
  {
    match s.format
    case WebVttFormat => WebVtt.Dumps(s.blocks)
    case SubRipFormat => SubRip.Render(Seqs.Map(Str, s.blocks))
  }

  /**
   * `Subtitles.__init__`: empty or absent data leave an empty, unmodified
   * object without raw data; otherwise the raw data are kept and read.
   */
  function New(format: Format, data: Option<seq<byte>>, languageCode: string, encoding: string, codec: Codec)
    : (r: Result<Subtitles, ReadError>)
    ensures r.Ok? ==> (!Modified(r.value) && r.value.format == format
      && r.value.languageCode == languageCode && r.value.encoding == encoding)
    ensures (data.None? || data.value == []) ==> r.Ok? && r.value.blocks == [] && r.value.raw.None?
    ensures (data.Some? && data.value != []) && r.Ok? ==> (r.value.raw == data
      && Read(format, codec.decode(data.value, encoding)) == Ok(r.value.blocks))
  {
    var empty := Subtitles(format, [], languageCode, encoding, None, false);
    if data.None? || data.value == [] then Ok(empty)
    else
      match Read(format, codec.decode(data.value, encoding))
      case Ok(blocks) =>
        var r := empty.(raw := data, blocks := blocks);
        assert !Modified(r);
        Ok(r)
      case Err(e) => Err(e)
  }

  // ---------------------------------------------------------------- output

  /** `dump()`: the raw data verbatim while there are raw data and nothing was modified, else the encoded rendering. */
  function Dump(s: Subtitles, codec: Codec): (r: seq<byte>)
    ensures s.raw.Some? && !Modified(s) ==> r == s.raw.value
    ensures s.raw.None? || Modified(s) ==> r == codec.encode(Render(s), s.encoding)
  {
    if s.raw.Some? && !Modified(s) then s.raw.value else codec.encode(Render(s), s.encoding)
  }

  /** `dumps()`: the decoded raw data while there are raw data and nothing was modified, else the rendering. */
  function Dumps(s: Subtitles, codec: Codec): (r: string)
    ensures s.raw.Some? && !Modified(s) ==> r == codec.decode(s.raw.value, s.encoding)
    ensures s.raw.None? || Modified(s) ==> r == Render(s)
  {
    if s.raw.Some? && !Modified(s) then codec.decode(s.raw.value, s.encoding) else Render(s)
  }

  /** A freshly read object dumps exactly the data it was read from. */
  lemma DumpOfNew(format: Format, data: seq<byte>, languageCode: string, encoding: string, codec: Codec)
    requires data != [] && New(format, Some(data), languageCode, encoding, codec).Ok?
    ensures Dump(New(format, Some(data), languageCode, encoding, codec).value, codec) == data
    ensures Dumps(New(format, Some(data), languageCode, encoding, codec).value, codec) == codec.decode(data, encoding)
  {
  }

  // ---------------------------------------------------------------- adding blocks

  /**
   * `add_blocks` with a list: an empty list changes nothing; otherwise the
   * blocks are appended in order and `_modified` becomes `_modified or set_modified`.
   */
  function AddBlocks(s: Subtitles, added: seq<Block>, setModified: bool): (r: Subtitles)
    ensures added == [] ==> r == s
    ensures added != [] ==> r.blocks == s.blocks + added && r.modifiedFlag == (s.modifiedFlag || setModified)
    ensures r.format == s.format && r.languageCode == s.languageCode && r.encoding == s.encoding && r.raw == s.raw
  {
    if added == [] then s
    else s.(blocks := s.blocks + added, modifiedFlag := s.modifiedFlag || setModified)
  }

  /** `add_blocks` with a single block: always appended. */
  function AddBlock(s: Subtitles, b: Block, setModified: bool): (r: Subtitles)
    ensures r.blocks == s.blocks + [b] && |r.blocks| == |s.blocks| + 1
    ensures r.modifiedFlag == (s.modifiedFlag || setModified)
  {
    AddBlocks(s, [b], setModified)
  }

  /** After a non-empty addition, the object is modified exactly when it was, when asked to be, or when an added block is. */
  lemma AddBlocksModified(s: Subtitles, added: seq<Block>, setModified: bool)
    ensures Modified(AddBlocks(s, added, setModified))
      <==> Modified(s) || (added != [] && (setModified || exists b <- added :: b.IsModified()))
  {
    var r := AddBlocks(s, added, setModified);
    if added != [] {
      forall b | b in r.blocks
        ensures b in s.blocks || b in added
      {
      }
      forall b | b in s.blocks || b in added
        ensures b in r.blocks
      {
      }
    }
  }

  /** Two additions with the same flag are one addition of both lists. */
  lemma AddBlocksCompose(s: Subtitles, a: seq<Block>, b: seq<Block>, setModified: bool)
    ensures AddBlocks(AddBlocks(s, a, setModified), b, setModified) == AddBlocks(s, a + b, setModified)
  {
    if a == [] {
      assert a + b == b;
    } else if b == [] {
      assert a + b == a;
    } else {
      assert s.blocks + a + b == s.blocks + (a + b);
    }
  }

  /**
   * `append_subtitles`: nothing happens when the other object has no blocks;
   * otherwise copies of its blocks are added in order and the target is
   * modified afterwards.
   */
  function AppendSubtitles(s: Subtitles, other: Subtitles): (r: Subtitles)
    ensures other.blocks == [] ==> r == s
    ensures other.blocks != [] ==> r.blocks == s.blocks + other.blocks && Modified(r)
  {
    if other.blocks == [] then s
    else
      var added := AddBlocks(s, other.blocks, true);
      if Modified(other) then added.(modifiedFlag := true) else added
  }

  /** The second test of `append_subtitles` has no effect: `add_blocks` has already set the flag. */
  lemma AppendSubtitlesIsAddBlocks(s: Subtitles, other: Subtitles)
    ensures AppendSubtitles(s, other) == AddBlocks(s, other.blocks, true)
  {
  }

  /** What `+` is given: a block, another subtitles object, or anything else. */
  datatype Addend = BlockAddend(block: Block) | SubtitlesAddend(subtitles: Subtitles) | OtherAddend

  /**
   * `__add__`: a block is added, an object of the same format class is
   * appended, and anything else is skipped with a warning.
   */
  function Add(s: Subtitles, obj: Addend): (r: Subtitles)
    ensures obj.BlockAddend? ==> r.blocks == s.blocks + [obj.block] && r.modifiedFlag
    ensures obj.SubtitlesAddend? && obj.subtitles.format == s.format ==> r.blocks == s.blocks + obj.subtitles.blocks
    ensures obj.OtherAddend? || (obj.SubtitlesAddend? && obj.subtitles.format != s.format) ==> r == s
  {
    match obj
    case BlockAddend(b) => AddBlock(s, b, true)
    case SubtitlesAddend(other) => if other.format == s.format then AppendSubtitles(s, other) else s
    case OtherAddend => s
  }

  /** Once blocks are added, dumping no longer returns the raw data but the rendering of all blocks. */
  lemma AddedBlocksAreRendered(s: Subtitles, added: seq<Block>, codec: Codec)
    requires added != []
    ensures Dumps(AddBlocks(s, added, true), codec) == Render(s.(blocks := s.blocks + added))
  {
  }

  // ---------------------------------------------------------------- copy and equality

  /**
   * `SubtitlesCaptionBlock.__copy__`: the caption is rebuilt from its times
   * and payload, so the `modified` flag survives but the WebVTT identifier
   * and cue settings fall back to empty. The other block classes declare no
   * `__copy__` of their own and are kept as they are.
   */
  function CopyBlock(b: Block): (r: Block)
    ensures Same(r, b) && r.IsModified() == b.IsModified()
    ensures r.Caption? ==> r.settings == "" && r.identifier == ""
    ensures !b.Caption? ==> r == b
  {
    if b.Caption? then b.(settings := "", identifier := "") else b
  }

  /**
   * `__copy__`: the same format, language, encoding and raw data, a copy of
   * every block, and `_modified` set to `modified()`.
   */
  function Copy(s: Subtitles): (r: Subtitles)
    ensures |r.blocks| == |s.blocks|
    ensures forall i :: 0 <= i < |s.blocks| ==> Same(r.blocks[i], s.blocks[i])
    ensures forall i :: 0 <= i < |s.blocks| ==> r.blocks[i].IsModified() == s.blocks[i].IsModified()
    ensures r.format == s.format && r.languageCode == s.languageCode && r.encoding == s.encoding && r.raw == s.raw
    ensures Modified(r) == Modified(s) && r.modifiedFlag == Modified(s)
  {
    var r := s.(blocks := Seqs.Map(CopyBlock, s.blocks), modifiedFlag := Modified(s));
    assert Modified(r) == Modified(s) by {
      if exists b <- s.blocks :: b.IsModified() {
        var b :| b in s.blocks && b.IsModified();
        var i :| 0 <= i < |s.blocks| && s.blocks[i] == b;
        assert r.blocks[i].IsModified();
      }
    }
    r
  }

  /** Captions that carry neither an identifier nor cue settings. */
  predicate PlainCues(blocks: seq<Block>) {
    forall b <- blocks :: b.Caption? ==> b.settings == "" && b.identifier == ""
  }

  /**
   * A copy dumps what the original dumps while the raw data are passed
   * through, or when no caption has an identifier or cue settings to lose.
   */
  lemma CopyDumps(s: Subtitles, codec: Codec)
    requires (s.raw.Some? && !Modified(s)) || PlainCues(s.blocks)
    ensures Dumps(Copy(s), codec) == Dumps(s, codec) && Dump(Copy(s), codec) == Dump(s, codec)
  {
    if !(s.raw.Some? && !Modified(s)) {
      assert Copy(s).blocks == s.blocks;
    }
  }

  /**
   * A WebVTT caption numbered with an identifier loses it in the copy, and
   * without raw data to pass through the copy dumps a different document.
   */
  lemma CopyDropsIdentifierAsWritten(c: Block, codec: Codec)
    requires c.Caption? && c.identifier != "" && !IsDigit(c.identifier[0]) && !IsNewline(c.identifier[0])
    ensures var s := Subtitles(WebVttFormat, [c], "", "utf-8", None, false);
      Dumps(Copy(s), codec) != Dumps(s, codec)
  {
    var s := Subtitles(WebVttFormat, [c], "", "utf-8", None, false);
    var c' := CopyBlock(c);
    assert Copy(s).blocks == [c'];
    FirstDumpedChar(c);
    FirstDumpedChar(c');
    assert Str(c')[0] == FormatTime(c.startTime, '.')[0];
  }

  /** The ninth character of a one-block WebVTT document is the block's first character. */
  lemma FirstDumpedChar(b: Block)
    requires Str(b) != [] && !IsNewline(Str(b)[0])
    ensures |WebVtt.Dumps([b])| > 8 && WebVtt.Dumps([b])[8] == Str(b)[0]
  {
    var text := "WEBVTT\n\n" + WebVtt.Concat([b], Str);
    assert text[8] == Str(b)[0];
    RStripPrefix(text, 9, IsNewline);
  }

  /** The evidently intended copy: every block kept whole, `_modified` set to `modified()`. */
  function CopyKeepingCues(s: Subtitles): (r: Subtitles)
    ensures r.blocks == s.blocks
    ensures r.format == s.format && r.languageCode == s.languageCode && r.encoding == s.encoding && r.raw == s.raw
    ensures Modified(r) == Modified(s) && r.modifiedFlag == Modified(s)
  {
    s.(modifiedFlag := Modified(s))
  }

  /** The intended copy dumps what the original dumps, whatever its blocks. */
  lemma CopyKeepingCuesDumps(s: Subtitles, codec: Codec)
    ensures Dumps(CopyKeepingCues(s), codec) == Dumps(s, codec)
    ensures Dump(CopyKeepingCues(s), codec) == Dump(s, codec)
  {
  }

  /** Python list equality over blocks: same length and equal blocks pairwise. */
  predicate SameBlocks(a: seq<Block>, b: seq<Block>)
    decreases |a|
  {
    |a| == |b| && (|a| == 0 || (Same(a[0], b[0]) && SameBlocks(a[1..], b[1..])))
  }

  lemma {:induction false} SameBlocksPointwise(a: seq<Block>, b: seq<Block>)
    ensures SameBlocks(a, b) <==> |a| == |b| && forall i :: 0 <= i < |a| ==> Same(a[i], b[i])
    decreases |a|
  {
    if |a| > 0 && |a| == |b| {
      SameBlocksPointwise(a[1..], b[1..]);
      if forall i :: 0 <= i < |a| ==> Same(a[i], b[i]) {
        assert forall i :: 0 <= i < |a| - 1 ==> Same(a[1..][i], b[1..][i]) by {
          forall i | 0 <= i < |a| - 1
            ensures Same(a[1..][i], b[1..][i])
          {
            assert Same(a[i + 1], b[i + 1]);
          }
        }
      }
    }
  }

  /** `__eq__`: the same format class and equal block lists. */
  predicate Equal(s: Subtitles, t: Subtitles) {
    s.format == t.format && SameBlocks(s.blocks, t.blocks)
  }

  /** Equality ignores the language, encoding, raw data and flags, so a copy equals its original. */
  lemma CopyEqual(s: Subtitles)
    ensures Equal(Copy(s), s) && Equal(s, Copy(s))
  {
    SameBlocksPointwise(Copy(s).blocks, s.blocks);
    SameBlocksPointwise(s.blocks, Copy(s).blocks);
  }

  // ---------------------------------------------------------------- conversion

  /** `[block.to_srt() for block in blocks if isinstance(block, SubtitlesCaptionBlock)]`. */
  function SrtBlocks(blocks: seq<Block>, convertCaption: Block -> Block): (r: seq<Block>)
    ensures |r| <= |blocks|
    decreases |blocks|
  {
    if |blocks| == 0 then []
    else if blocks[0].IsCaption() then [Blocks.ToSrt(blocks[0], convertCaption)] + SrtBlocks(blocks[1..], convertCaption)
    else SrtBlocks(blocks[1..], convertCaption)
  }

  /** The number of caption blocks. */
  function CaptionCount(blocks: seq<Block>): nat
    decreases |blocks|
  {
    if |blocks| == 0 then 0 else (if blocks[0].IsCaption() then 1 else 0) + CaptionCount(blocks[1..])
  }

  /**
   * `to_srt`: a new SubRip object with the same language and encoding, no raw
   * data, and one block per caption block; it is modified when it has blocks.
   */
  function ToSrt(s: Subtitles, convertCaption: Block -> Block): (r: Subtitles)
    ensures r.format == SubRipFormat && r.raw.None?
    ensures r.languageCode == s.languageCode && r.encoding == s.encoding
    ensures r.modifiedFlag <==> r.blocks != []
  {
    var empty := Subtitles(SubRipFormat, [], s.languageCode, s.encoding, None, false);
    AddBlocks(empty, SrtBlocks(s.blocks, convertCaption), true)
  }

  /** Conversion works block by block: it distributes over concatenation. */
  lemma {:induction false} SrtBlocksConcat(a: seq<Block>, b: seq<Block>, convertCaption: Block -> Block)
    ensures SrtBlocks(a + b, convertCaption) == SrtBlocks(a, convertCaption) + SrtBlocks(b, convertCaption)
    decreases |a|
  {
    if |a| == 0 {
      assert a + b == b;
    } else {
      assert (a + b)[0] == a[0] && (a + b)[1..] == a[1..] + b;
      SrtBlocksConcat(a[1..], b, convertCaption);
    }
  }

  /**
   * One SubRip block for each caption block, in the original order: the
   * i-th converted block is the conversion of the i-th caption.
   */
  lemma {:induction false} SrtBlocksOfCaptions(blocks: seq<Block>, convertCaption: Block -> Block)
    ensures |SrtBlocks(blocks, convertCaption)| == CaptionCount(blocks)
    ensures SrtBlocks(blocks, convertCaption)
      == Seqs.Map((b: Block) => if b.IsCaption() then Blocks.ToSrt(b, convertCaption) else b,
                  Seqs.Filter((b: Block) => b.IsCaption(), blocks))
    decreases |blocks|
  {
    if |blocks| > 0 {
      SrtBlocksOfCaptions(blocks[1..], convertCaption);
      var f := (b: Block) => if b.IsCaption() then Blocks.ToSrt(b, convertCaption) else b;
      var p := (b: Block) => b.IsCaption();
      var rest := Seqs.Filter(p, blocks[1..]);
      if blocks[0].IsCaption() {
        assert Seqs.Filter(p, blocks) == [blocks[0]] + rest;
        Seqs.MapCons(f, [blocks[0]] + rest);
        assert ([blocks[0]] + rest)[1..] == rest;
      } else {
        assert Seqs.Filter(p, blocks) == rest;
      }
    }
  }

  /** A SubRip object converts to an object with the very same blocks. */
  lemma {:induction false} SrtBlocksOfSubRip(blocks: seq<Block>, convertCaption: Block -> Block)
    requires forall b <- blocks :: b.SubRipCaption?
    ensures SrtBlocks(blocks, convertCaption) == blocks
    decreases |blocks|
  {
    if |blocks| > 0 {
      assert blocks[0] in blocks;
      assert forall b <- blocks[1..] :: b in blocks;
      SrtBlocksOfSubRip(blocks[1..], convertCaption);
      assert [blocks[0]] + blocks[1..] == blocks;
    }
  }

  // ---------------------------------------------------------------- polish

  /** `language_code.split('-')[0] in RTL_LANGUAGES`. */
  predicate IsRtlLanguage(languageCode: string, rtlLanguages: seq<string>) {
    Split(languageCode, "-")[0] in rtlLanguages
  }

  /** `fix_rtl` on a caption block; the other blocks have no such method and are left alone. */
  function FixIfCaption(b: Block): (r: Block)
    ensures Same(b, r) <==> !b.IsCaption() || r.payload == b.payload
  {
    if b.IsCaption() then FixRtl(b) else b
  }

  /** `list.remove(x)`: the first block equal to `x` is taken out. */
  function RemoveFirst(xs: seq<Block>, x: Block): (r: seq<Block>)
    ensures (exists k :: 0 <= k < |xs| && Same(xs[k], x)) ==> |r| == |xs| - 1
    ensures (forall k :: 0 <= k < |xs| ==> !Same(xs[k], x)) ==> r == xs
    decreases |xs|
  {
    if |xs| == 0 then []
    else if Same(xs[0], x) then xs[1..]
    else
      var tail := RemoveFirst(xs[1..], x);
      assert (exists k :: 0 <= k < |xs| && Same(xs[k], x)) ==> exists k :: 0 <= k < |xs| - 1 && Same(xs[1..][k], x);
      assert (forall k :: 0 <= k < |xs| ==> !Same(xs[k], x)) ==> forall k :: 0 <= k < |xs| - 1 ==> !Same(xs[1..][k], x);
      assert (forall k :: 0 <= k < |xs| ==> !Same(xs[k], x)) ==> [xs[0]] + xs[1..] == xs;
      [xs[0]] + tail
  }

  /** The block `list.remove` takes out is the first equal one; the others keep their order. */
  lemma {:induction false} RemoveFirstIsFirst(xs: seq<Block>, x: Block, k: nat)
    requires k < |xs| && Same(xs[k], x)
    requires forall j :: 0 <= j < k ==> !Same(xs[j], x)
    ensures RemoveFirst(xs, x) == xs[..k] + xs[k + 1..]
    decreases k
  {
    if k > 0 {
      RemoveFirstIsFirst(xs[1..], x, k - 1);
      assert xs[..k] + xs[k + 1..] == [xs[0]] + (xs[1..][..k - 1] + xs[1..][k..]);
    }
  }

  /**
   * The `for block in self.blocks` loop of `polish` as written: the block
   * at the iterator's index is fixed in place, and when it equals the
   * previous block the first block equal to that one is removed from the
   * list being iterated, so the iterator passes over the block after it.
   * Returns the blocks and `_modified`.
   */
  function WalkAsWritten(blocks: seq<Block>, i: nat, prev: Option<Block>, fix: bool, dedupe: bool, flag: bool)
    : (r: (seq<Block>, bool))
    decreases |blocks| - i
  {
    if i >= |blocks| then (blocks, flag)
    else
      var b := if fix then FixIfCaption(blocks[i]) else blocks[i];
      var edited := blocks[i := b];
      if dedupe && prev.Some? && Same(b, prev.value) then
        assert Same(edited[i], prev.value);
        WalkAsWritten(RemoveFirst(edited, prev.value), i + 1, Some(b), fix, dedupe, true)
      else
        WalkAsWritten(edited, i + 1, Some(b), fix, dedupe, flag)
  }

  /** `polish` as written. */
  function PolishAsWritten(s: Subtitles, fixRtl: bool, removeDuplicates: bool, rtlLanguages: seq<string>): (r: Subtitles)
  {
    var fix := fixRtl && IsRtlLanguage(s.languageCode, rtlLanguages);
    if !fix && !removeDuplicates then s
    else
      var walked := WalkAsWritten(s.blocks, 0, None, fix, removeDuplicates, s.modifiedFlag);
      s.(blocks := walked.0, modifiedFlag := walked.1)
  }

  lemma {:induction false} WalkAsWrittenBounds(blocks: seq<Block>, i: nat, prev: Option<Block>, fix: bool, dedupe: bool, flag: bool)
    ensures var r := WalkAsWritten(blocks, i, prev, fix, dedupe, flag);
      |r.0| <= |blocks| && (flag ==> r.1) && (|r.0| < |blocks| ==> r.1)
    decreases |blocks| - i
  {
    if i < |blocks| {
      var b := if fix then FixIfCaption(blocks[i]) else blocks[i];
      var edited := blocks[i := b];
      if dedupe && prev.Some? && Same(b, prev.value) {
        assert Same(edited[i], prev.value);
        WalkAsWrittenBounds(RemoveFirst(edited, prev.value), i + 1, Some(b), fix, dedupe, true);
      } else {
        WalkAsWrittenBounds(edited, i + 1, Some(b), fix, dedupe, flag);
      }
    }
  }

  /**
   * `polish` as written never adds blocks, sets `_modified` when it removes
   * one, keeps a set flag, and with both fixes off returns the object unchanged.
   */
  lemma PolishAsWrittenBounds(s: Subtitles, fixRtl: bool, removeDuplicates: bool, rtlLanguages: seq<string>)
    ensures var r := PolishAsWritten(s, fixRtl, removeDuplicates, rtlLanguages);
      |r.blocks| <= |s.blocks| && (|r.blocks| < |s.blocks| ==> r.modifiedFlag) && (s.modifiedFlag ==> r.modifiedFlag)
      && r.languageCode == s.languageCode && r.raw == s.raw && r.format == s.format
    ensures !(fixRtl && IsRtlLanguage(s.languageCode, rtlLanguages)) && !removeDuplicates
      ==> PolishAsWritten(s, fixRtl, removeDuplicates, rtlLanguages) == s
  {
    var fix := fixRtl && IsRtlLanguage(s.languageCode, rtlLanguages);
    WalkAsWrittenBounds(s.blocks, 0, None, fix, removeDuplicates, s.modifiedFlag);
  }

  // ---------------------------------------------------------------- corrected polish

  /** No block equals the block after it. */
  predicate NoAdjacentSame(xs: seq<Block>) {
    forall i :: 0 <= i < |xs| - 1 ==> !Same(xs[i], xs[i + 1])
  }

  /**
   * Every run of equal neighbours collapsed to its last block, the block
   * the loop keeps when it removes the previous one.
   */
  function Collapse(xs: seq<Block>): (r: seq<Block>)
    ensures |r| <= |xs|
    ensures |xs| > 0 ==> |r| > 0 && r[|r| - 1] == xs[|xs| - 1]
    decreases |xs|
  {
    if |xs| <= 1 then xs
    else if Same(xs[0], xs[1]) then Collapse(xs[1..])
    else [xs[0]] + Collapse(xs[1..])
  }

  lemma {:induction false} CollapseNoAdjacentSame(xs: seq<Block>)
    ensures NoAdjacentSame(Collapse(xs))
    decreases |xs|
  {
    if |xs| > 1 {
      CollapseNoAdjacentSame(xs[1..]);
      var rest := Collapse(xs[1..]);
      if !Same(xs[0], xs[1]) {
        CollapseHead(xs[1..]);
        assert Same(rest[0], xs[1]);
        SameIsEquivalence(xs[0], rest[0], xs[1]);
        var r := [xs[0]] + rest;
        forall i | 0 <= i < |r| - 1
          ensures !Same(r[i], r[i + 1])
        {
          if i > 0 {
            assert r[i] == rest[i - 1] && r[i + 1] == rest[i];
          }
        }
      }
    }
  }

  /** The first kept block equals the first block. */
  lemma {:induction false} CollapseHead(xs: seq<Block>)
    requires |xs| > 0
    ensures Same(Collapse(xs)[0], xs[0])
    decreases |xs|
  {
    SameIsEquivalence(xs[0], xs[0], xs[0]);
    if |xs| > 1 && Same(xs[0], xs[1]) {
      CollapseHead(xs[1..]);
      SameIsEquivalence(xs[0], xs[1], Collapse(xs[1..])[0]);
      SameIsEquivalence(Collapse(xs[1..])[0], xs[1], xs[0]);
    }
  }

  lemma NoAdjacentSameCons(xs: seq<Block>)
    requires |xs| > 1
    ensures NoAdjacentSame(xs) <==> !Same(xs[0], xs[1]) && NoAdjacentSame(xs[1..])
  {
    if NoAdjacentSame(xs) {
      forall i | 0 <= i < |xs| - 2
        ensures !Same(xs[1..][i], xs[1..][i + 1])
      {
        assert xs[1..][i] == xs[i + 1];
      }
    }
    if !Same(xs[0], xs[1]) && NoAdjacentSame(xs[1..]) {
      forall i | 0 <= i < |xs| - 1
        ensures !Same(xs[i], xs[i + 1])
      {
        if i > 0 {
          assert xs[i] == xs[1..][i - 1] && xs[i + 1] == xs[1..][i];
        }
      }
    }
  }

  /** Without equal neighbours there is nothing to collapse. */
  lemma {:induction false} CollapseKeeps(xs: seq<Block>)
    ensures Collapse(xs) == xs <==> NoAdjacentSame(xs)
    decreases |xs|
  {
    if |xs| > 1 {
      CollapseKeeps(xs[1..]);
      NoAdjacentSameCons(xs);
      if Same(xs[0], xs[1]) {
        CollapseConsSame(xs);
        assert |Collapse(xs)| < |xs|;
      } else {
        CollapseConsOther(xs);
        var c := Collapse(xs[1..]);
        assert ([xs[0]] + c)[1..] == c;
        assert [xs[0]] + xs[1..] == xs;
      }
    }
  }

  /** The kept blocks are the blocks with some left out, in their order. */
  lemma {:induction false} CollapseIsSubsequence(xs: seq<Block>)
    ensures Seqs.IsSubsequence(Collapse(xs), xs)
    decreases |xs|
  {
    if |xs| > 1 {
      CollapseIsSubsequence(xs[1..]);
      var rest := Collapse(xs[1..]);
      if Same(xs[0], xs[1]) {
        Seqs.SubsequenceSkip(rest, xs[0], xs[1..]);
        assert [xs[0]] + xs[1..] == xs;
      } else {
        assert ([xs[0]] + rest)[1..] == rest;
      }
    } else if |xs| == 1 {
      assert xs[1..] == [];
    }
  }

  /** One step of the loop on the kept blocks: `b` replaces the last kept block when the two are equal, or is appended. */
  function Push(kept: seq<Block>, b: Block): (r: seq<Block>)
    ensures |r| > 0 && r[|r| - 1] == b
  {
    if |kept| > 0 && Same(kept[|kept| - 1], b) then kept[..|kept| - 1] + [b] else kept + [b]
  }

  /** A block in front of the kept blocks is not touched by a step. */
  lemma PushCons(x: Block, kept: seq<Block>, b: Block)
    requires |kept| > 0
    ensures Push([x] + kept, b) == [x] + Push(kept, b)
  {
    var k := [x] + kept;
    assert k[|k| - 1] == kept[|kept| - 1];
    if Same(kept[|kept| - 1], b) {
      assert k[..|k| - 1] == [x] + kept[..|kept| - 1];
      Seqs.ConcatAssoc([x], kept[..|kept| - 1], [b]);
    } else {
      Seqs.ConcatAssoc([x], kept, [b]);
    }
  }

  lemma CollapseConsSame(xs: seq<Block>)
    requires |xs| > 1 && Same(xs[0], xs[1])
    ensures Collapse(xs) == Collapse(xs[1..])
  {
  }

  lemma CollapseConsOther(xs: seq<Block>)
    requires |xs| > 1 && !Same(xs[0], xs[1])
    ensures Collapse(xs) == [xs[0]] + Collapse(xs[1..])
  {
  }

  /** Adding one block at the end is one step of the loop on the kept blocks. */
  lemma {:induction false} CollapseSnoc(xs: seq<Block>, b: Block)
    ensures Collapse(xs + [b]) == Push(Collapse(xs), b)
    decreases |xs|
  {
    var ys := xs + [b];
    if |xs| == 0 {
      assert ys == [b];
    } else if |xs| == 1 {
      assert ys == [xs[0], b];
      assert ys[1..] == [b];
      assert Collapse(xs) == xs;
      if Same(xs[0], b) {
        CollapseConsSame(ys);
        assert xs[..0] == [];
      } else {
        CollapseConsOther(ys);
      }
    } else {
      assert ys[0] == xs[0] && ys[1] == xs[1];
      assert ys[1..] == xs[1..] + [b];
      CollapseSnoc(xs[1..], b);
      if Same(xs[0], xs[1]) {
        CollapseConsSame(xs);
        CollapseConsSame(ys);
      } else {
        CollapseConsOther(xs);
        CollapseConsOther(ys);
        PushCons(xs[0], Collapse(xs[1..]), b);
      }
    }
  }

  /** The blocks the loop keeps: all of them, or the collapsed runs when duplicates are removed. */
  function Kept(xs: seq<Block>, dedupe: bool): (r: seq<Block>)
    ensures |r| <= |xs|
  {
    if dedupe then Collapse(xs) else xs
  }

  lemma KeptSnoc(xs: seq<Block>, b: Block, dedupe: bool)
    ensures Kept(xs + [b], dedupe) == if dedupe then Push(Kept(xs, dedupe), b) else xs + [b]
  {
    if dedupe {
      CollapseSnoc(xs, b);
    }
  }

  /** Every block fixed when `fix` holds. */
  function FixAll(xs: seq<Block>, fix: bool): (r: seq<Block>)
    ensures |r| == |xs|
  {
    if fix then Seqs.Map(FixIfCaption, xs) else xs
  }

  /** A caption of a fixed list carries a fixed payload, which a second fix leaves alone. */
  lemma FixAllFixed(xs: seq<Block>)
    ensures forall b <- FixAll(xs, true) :: b.IsCaption() ==> FixRtl(b) == b
  {
    forall b | b in FixAll(xs, true) && b.IsCaption()
      ensures FixRtl(b) == b
    {
      var i :| 0 <= i < |xs| && b == FixAll(xs, true)[i];
      assert xs[i].IsCaption();
      FixRtlIdempotent(xs[i]);
    }
  }

  /**
   * `polish` as evidently intended: every caption is fixed when the
   * language is right to left, and with `remove_duplicates` each run of
   * equal neighbours is reduced to its last block; `_modified` is set
   * exactly when a block was removed (or it was already set).
   */
  method Polish(s: Subtitles, fixRtl: bool, removeDuplicates: bool, rtlLanguages: seq<string>) returns (r: Subtitles)
    ensures var fixed := FixAll(s.blocks, fixRtl && IsRtlLanguage(s.languageCode, rtlLanguages));
      r.blocks == Kept(fixed, removeDuplicates)
    ensures r.modifiedFlag <==> s.modifiedFlag || |r.blocks| < |s.blocks|
    ensures r.languageCode == s.languageCode && r.raw == s.raw && r.format == s.format && r.encoding == s.encoding
  {
    var fix := fixRtl && IsRtlLanguage(s.languageCode, rtlLanguages);
    if !fix && !removeDuplicates {
      return s;
    }
    var kept, flag := PolishBlocks(s.blocks, fix, removeDuplicates, s.modifiedFlag);
    r := s.(blocks := kept, modifiedFlag := flag);
  }

  /** The loop of `polish` over the blocks: fix each one, then keep it or let it replace an equal predecessor. */
  method PolishBlocks(blocks: seq<Block>, fix: bool, removeDuplicates: bool, modified: bool) returns (kept: seq<Block>, flag: bool)
    ensures kept == Kept(FixAll(blocks, fix), removeDuplicates)
    ensures flag <==> modified || |kept| < |blocks|
  {
    ghost var fixed := FixAll(blocks, fix);
    kept := [];
    flag := modified;
    for i := 0 to |blocks|
      invariant kept == Kept(fixed[..i], removeDuplicates)
      invariant flag <==> modified || |kept| < i
    {
      var b := if fix then FixIfCaption(blocks[i]) else blocks[i];
      var dropped := removeDuplicates && |kept| > 0 && Same(kept[|kept| - 1], b);
      PolishStep(blocks, fix, i, removeDuplicates, modified, kept, flag);
      kept := if dropped then kept[..|kept| - 1] + [b] else kept + [b];
      flag := flag || dropped;
    }
    assert fixed[..|blocks|] == fixed;
  }

  /** One turn of the loop in `PolishBlocks` keeps both of its invariants. */
  lemma PolishStep(blocks: seq<Block>, fix: bool, i: nat, dedupe: bool, modified: bool, kept: seq<Block>, flag: bool)
    requires i < |blocks|
    requires kept == Kept(FixAll(blocks, fix)[..i], dedupe)
    requires flag <==> modified || |kept| < i
    ensures var b := if fix then FixIfCaption(blocks[i]) else blocks[i];
      var dropped := dedupe && |kept| > 0 && Same(kept[|kept| - 1], b);
      var next := if dropped then kept[..|kept| - 1] + [b] else kept + [b];
      next == Kept(FixAll(blocks, fix)[..i + 1], dedupe) && ((flag || dropped) <==> modified || |next| < i + 1)
  {
    assert |FixAll(blocks, fix)[..i]| == i;
    KeptStep(blocks, fix, i, dedupe);
  }

  /** One turn of the loop in `PolishBlocks`: the next fixed block goes through `Push`, or is appended. */
  lemma KeptStep(blocks: seq<Block>, fix: bool, i: nat, dedupe: bool)
    requires i < |blocks|
    ensures var fixed := FixAll(blocks, fix);
      var b := if fix then FixIfCaption(blocks[i]) else blocks[i];
      Kept(fixed[..i + 1], dedupe) == if dedupe then Push(Kept(fixed[..i], dedupe), b) else fixed[..i] + [b]
  {
    var fixed := FixAll(blocks, fix);
    assert fixed[i] == if fix then FixIfCaption(blocks[i]) else blocks[i];
    Seqs.TakeSnoc(fixed, i);
    KeptSnoc(fixed[..i], fixed[i], dedupe);
  }

  // ---------------------------------------------------------------- what the written loop does

  /** A caption at 00:00:00.000 with a one-character payload. */
  function SampleCaption(payload: string): Block {
    Caption(RawTime(0, 0, 0, 0), RawTime(0, 0, 0, 0), payload, "", "", false)
  }

  /**
   * Three equal captions in a row keep two: the second removes the first,
   * and the iterator then steps past the third.
   */
  lemma ThreeDuplicatesKeepTwoAsWritten()
    ensures var a := SampleCaption("a");
      WalkAsWritten([a, a, a], 0, None, false, true, false) == ([a, a], true)
      && !NoAdjacentSame([a, a])
  {
    var a := SampleCaption("a");
    assert Same(a, a);
    assert [a, a, a][0 := a] == [a, a, a];
    assert WalkAsWritten([a, a, a], 0, None, false, true, false) == WalkAsWritten([a, a, a], 1, Some(a), false, true, false);
    assert [a, a, a][1 := a] == [a, a, a];
    assert RemoveFirst([a, a, a], a) == [a, a];
    assert WalkAsWritten([a, a, a], 1, Some(a), false, true, false) == WalkAsWritten([a, a], 2, Some(a), false, true, true);
  }

  /** The corrected polish reduces the same three captions to one. */
  lemma ThreeDuplicatesKeepOne()
    ensures var a := SampleCaption("a"); Collapse([a, a, a]) == [a]
  {
    var a := SampleCaption("a");
    assert [a, a, a][1..] == [a, a];
    assert [a, a][1..] == [a];
  }

  /**
   * With right-to-left fixing on, the block after a removed duplicate is
   * passed over and keeps its unfixed payload.
   */
  lemma SkippedBlockNotFixedAsWritten(a: Block, c: Block)
    requires a.Caption? && c.Caption? && (c.payload == [] || c.payload[0] != Rtl.Mark)
    ensures WalkAsWritten([a, a, c], 0, None, true, true, false) == ([FixRtl(a), c], true)
    ensures FixIfCaption(c) != c
  {
    var fa := FixRtl(a);
    SkipFirstStep(a, c);
    SkipSecondStep(fa, a, c);
    assert FixIfCaption(c).payload[0] == Rtl.Mark;
  }

  lemma SkipFirstStep(a: Block, c: Block)
    requires a.Caption?
    ensures WalkAsWritten([a, a, c], 0, None, true, true, false) == WalkAsWritten([FixRtl(a), a, c], 1, Some(FixRtl(a)), true, true, false)
  {
    var xs := [a, a, c];
    WalkFirst(xs, true, true, false);
    assert xs[0 := FixRtl(a)] == [FixRtl(a), a, c];
  }

  /** The first turn of the loop as written has no previous block to compare with. */
  lemma WalkFirst(blocks: seq<Block>, fix: bool, dedupe: bool, flag: bool)
    requires 0 < |blocks|
    ensures var b := if fix then FixIfCaption(blocks[0]) else blocks[0];
      WalkAsWritten(blocks, 0, None, fix, dedupe, flag) == WalkAsWritten(blocks[0 := b], 1, Some(b), fix, dedupe, flag)
  {
  }

  lemma SkipSecondStep(fa: Block, a: Block, c: Block)
    requires a.Caption? && fa == FixRtl(a)
    ensures WalkAsWritten([fa, a, c], 1, Some(fa), true, true, false) == ([fa, c], true)
  {
    var xs := [fa, a, c];
    assert FixIfCaption(a) == fa;
    assert Same(fa, fa);
    assert xs[1 := fa] == [fa, fa, c];
    WalkStep(xs, 1, Some(fa), true, true, false);
    var ys := [fa, fa, c];
    assert ys[1..] == [fa, c];
    assert RemoveFirst(ys, fa) == [fa, c];
  }

  /** One iteration of the loop as written. */
  lemma WalkStep(blocks: seq<Block>, i: nat, prev: Option<Block>, fix: bool, dedupe: bool, flag: bool)
    requires i < |blocks|
    ensures var b := if fix then FixIfCaption(blocks[i]) else blocks[i];
      WalkAsWritten(blocks, i, prev, fix, dedupe, flag)
      == if dedupe && prev.Some? && Same(b, prev.value)
         then WalkAsWritten(RemoveFirst(blocks[i := b], prev.value), i + 1, Some(b), fix, dedupe, true)
         else WalkAsWritten(blocks[i := b], i + 1, Some(b), fix, dedupe, flag)
  {
  }

  /**
   * A duplicate pair after an earlier equal block removes that earlier
   * block, not the previous one, and the pair stays side by side.
   */
  lemma EarlierBlockRemovedAsWritten(a: Block, c: Block)
    requires !Same(a, c)
    ensures WalkAsWritten([a, c, a, a], 0, None, false, true, false) == ([c, a, a], true)
    ensures !NoAdjacentSame([c, a, a])
  {
    assert Same(a, a);
    SameIsEquivalence(a, c, a);
    var xs := [a, c, a, a];
    assert xs[0 := a] == xs && xs[1 := c] == xs && xs[2 := a] == xs && xs[3 := a] == xs;
    assert WalkAsWritten(xs, 0, None, false, true, false) == WalkAsWritten(xs, 1, Some(a), false, true, false);
    assert WalkAsWritten(xs, 1, Some(a), false, true, false) == WalkAsWritten(xs, 2, Some(c), false, true, false);
    assert WalkAsWritten(xs, 2, Some(c), false, true, false) == WalkAsWritten(xs, 3, Some(a), false, true, false);
    assert RemoveFirst(xs, a) == [c, a, a];
    assert WalkAsWritten(xs, 3, Some(a), false, true, false) == WalkAsWritten([c, a, a], 4, Some(a), false, true, true);
    assert !NoAdjacentSame([c, a, a]) by {
      assert Same([c, a, a][1], [c, a, a][2]);
    }
  }

  /** Collapsing keeps blocks of the list only. */
  lemma {:induction false} CollapseMembers(xs: seq<Block>)
    ensures forall b <- Collapse(xs) :: b in xs
    decreases |xs|
  {
    if |xs| > 1 {
      CollapseMembers(xs[1..]);
      forall b | b in Collapse(xs)
        ensures b in xs
      {
        assert b == xs[0] || b in Collapse(xs[1..]);
        if b != xs[0] {
          assert b in xs[1..];
        }
      }
    }
  }

  /**
   * The corrected polish leaves no two equal neighbours, keeps the blocks
   * in order, and with right-to-left fixing every caption it keeps is fixed.
   */
  lemma PolishIntended(xs: seq<Block>, fix: bool)
    ensures NoAdjacentSame(Kept(FixAll(xs, fix), true))
    ensures Seqs.IsSubsequence(Kept(FixAll(xs, fix), true), FixAll(xs, fix))
    ensures fix ==> forall b <- Kept(FixAll(xs, fix), true) :: b.IsCaption() ==> FixRtl(b) == b
    ensures NoAdjacentSame(FixAll(xs, fix)) ==> Kept(FixAll(xs, fix), true) == FixAll(xs, fix)
  {
    var fixed := FixAll(xs, fix);
    CollapseNoAdjacentSame(fixed);
    CollapseIsSubsequence(fixed);
    CollapseKeeps(fixed);
    if fix {
      FixAllFixed(xs);
      CollapseMembers(fixed);
    }
  }
}
