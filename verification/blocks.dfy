/**
 * The blocks of the current subtitle model: the four WebVTT block classes
 * and the SubRip caption block, with their equality, their text form and
 * the right-to-left fix of caption payloads.
 */
module Blocks {
  import opened Strings
  import opened Timing
  import Rtl

  datatype Block =
    | Caption(startTime: Time, endTime: Time, payload: string, settings: string, identifier: string, modified: bool)
    | Comment(payload: string, inline: bool)
    | Style(payload: string)
    | Region(payload: string)
    | SubRipCaption(startTime: Time, endTime: Time, payload: string, modified: bool)
  {
    /** An instance of `SubtitlesCaptionBlock`, the blocks that have timings and `fix_rtl`. */
    predicate IsCaption() {
      Caption? || SubRipCaption?
    }

    /**
     * The `modified` attribute. Only caption blocks run the base initialiser
     * that creates it; the other blocks are taken as never modified.
     */
    predicate IsModified() {
      IsCaption() && modified
    }
  }

  /** What `a == b` compares of a block: its class, with the timings and payload of a caption, the payload (and inline flag) otherwise. */
  datatype Key =
    | CaptionKey(startTime: Time, endTime: Time, payload: string)
    | CommentKey(payload: string, inline: bool)
    | StyleKey(payload: string)
    | RegionKey(payload: string)
    | SubRipKey(startTime: Time, endTime: Time, payload: string)

  function KeyOf(b: Block): Key {
    match b
    case Caption(s, e, p, _, _, _) => CaptionKey(s, e, p)
    case Comment(p, i) => CommentKey(p, i)
    case Style(p) => StyleKey(p)
    case Region(p) => RegionKey(p)
    case SubRipCaption(s, e, p, _) => SubRipKey(s, e, p)
  }

  /**
   * `a == b`: same class, and the same timings and payload for captions, the
   * same payload (and inline flag) otherwise. Identifier, settings and the
   * modified flag take no part.
   */
  predicate Same(a: Block, b: Block) {
    KeyOf(a) == KeyOf(b)
  }

  /** `Same` is an equivalence, so "equal to the previous block" is well behaved. */
  lemma SameIsEquivalence(a: Block, b: Block, c: Block)
    ensures Same(a, a)
    ensures Same(a, b) ==> Same(b, a)
    ensures Same(a, b) && Same(b, c) ==> Same(a, c)
  {
  }

  /** Two captions with the same timings and payload are equal whatever their identifiers and settings. */
  lemma SameIgnoresCueExtras(a: Block, b: Block)
    requires a.Caption? && b.Caption?
    ensures Same(a, b) <==> a.startTime == b.startTime && a.endTime == b.endTime && a.payload == b.payload
  {
  }

  /** The timing line `start --> end`, with `sep` before the milliseconds. */
  function TimingLine(startTime: Time, endTime: Time, sep: char): string {
    FormatTime(startTime, sep) + " --> " + FormatTime(endTime, sep)
  }

  /** `Comment.__str__`. */
  function CommentText(payload: string, inline: bool): string {
    if inline then "NOTE " + payload
    else if payload != "" then "NOTE\n" + payload
    else "NOTE"
  }

  /** `str(block)` for each block class. */
  function Str(b: Block): string {
    match b
    case Caption(s, e, p, settings, id, _) =>
      (if id != "" then id + "\n" else "")
      + TimingLine(s, e, '.')
      + (if settings != "" then " " + settings else "")
      + "\n" + p
    case Comment(p, inline) => CommentText(p, inline)
    case Style(p) => "STYLE " + p
    case Region(p) => "REGION " + p
    case SubRipCaption(s, e, p, _) => TimingLine(s, e, ',') + "\n" + p
  }

  /**
   * `SubtitlesCaptionBlock.fix_rtl`: the payload is re-marked right to left
   * and `modified` is set exactly when the payload changed.
   */
  function FixRtl(b: Block): (r: Block)
    requires b.IsCaption()
    ensures r.IsCaption() && r.Caption? == b.Caption?
    ensures r.startTime == b.startTime && r.endTime == b.endTime
    ensures r.Caption? ==> r.settings == b.settings && r.identifier == b.identifier
    ensures r.payload == Rtl.Fix(b.payload, Rtl.Mark, Rtl.ControlChars)
    ensures r.modified <==> b.modified || r.payload != b.payload
  {
    var fixed := Rtl.Fix(b.payload, Rtl.Mark, Rtl.ControlChars);
    b.(payload := fixed, modified := b.modified || fixed != b.payload)
  }

  /** A fixed caption is left as it is by a second fix; a set `modified` is never cleared. */
  lemma FixRtlIdempotent(b: Block)
    requires b.IsCaption()
    ensures FixRtl(FixRtl(b)) == FixRtl(b)
    ensures b.modified ==> FixRtl(b).modified
  {
    Rtl.FixIdempotent(b.payload, Rtl.Mark, Rtl.ControlChars);
  }

  /** After fixing, the payload has as many lines as before, each starting with the mark. */
  lemma FixRtlLines(b: Block)
    requires b.IsCaption()
    ensures |Split(FixRtl(b).payload, "\n")| == |Split(b.payload, "\n")|
    ensures forall line <- Split(FixRtl(b).payload, "\n") :: |line| > 0 && line[0] == Rtl.Mark
  {
    Rtl.FixLines(b.payload, Rtl.Mark, Rtl.ControlChars);
    Rtl.FixLineCount(b.payload, Rtl.Mark, Rtl.ControlChars);
  }

  /**
   * `block.to_srt()` for the captions: a SubRip caption is returned as it is;
   * the conversion of a WebVTT caption is not in the model and is passed in.
   */
  function ToSrt(b: Block, convertCaption: Block -> Block): (r: Block)
    requires b.IsCaption()
    ensures b.SubRipCaption? ==> r == b
  {
    if b.SubRipCaption? then b else convertCaption(b)
  }
}
