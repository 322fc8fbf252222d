/**
 * The line loop shared by the current `WebVTTSubtitles.loads` and the legacy
 * `Subtitles.loads`. Both walk the lines of the text once:
 *   - a cue-timings line opens a caption, whose identifier is the line
 *     before it when that is non-empty;
 *   - a `NOTE` line opens a comment;
 *   - a `REGION` or `STYLE` line (trailing blanks allowed) opens a header block;
 *   - every other line is skipped.
 * A block takes the following lines up to the first empty one, which it
 * consumes. The two readers differ only in the regular expressions, so
 * those are a parameter here.
 */
module VttScan {
  import opened Results
  import opened Strings
  import opened Timing
  import opened VttSyntax

  datatype HeaderKind = RegionHeader | StyleHeader

  /** What the loop reads from one block, before it is turned into a block object. */
  datatype Entry =
    | CaptionEntry(identifier: string, startTime: Time, endTime: Time, settings: string, payload: string)
    | CommentEntry(payload: string, inline: bool)
    | HeaderEntry(kind: HeaderKind, payload: string)

  /** The two regular expressions a reader uses, as recognisers (see `VttSyntax`). */
  datatype Syntax = Syntax(
    captionHead: string -> Option<CaptionHeadMatch>,
    commentHead: string -> Option<Option<string>>)

  /** The expressions of `isubrip/subtitle_formats/webvtt.py`. */
  const Current: Syntax := Syntax(CaptionHead, CommentHead)

  /** The lines a block takes, what is left after it, and whether an empty line ended it. */
  datatype Body = Body(lines: seq<string>, rest: seq<string>, closed: bool)

  /**
   * The inner `for additional_line in lines_iterator` loop: non-empty lines
   * up to the first empty line, which is consumed, or up to the end.
   */
  function TakeBody(xs: seq<string>): (r: Body)
    ensures forall k :: 0 <= k < |r.lines| ==> r.lines[k] != ""
    ensures r.closed ==> xs == r.lines + [""] + r.rest
    ensures !r.closed ==> xs == r.lines && r.rest == []
    decreases |xs|
  {
    if |xs| == 0 then Body([], [], false)
    else if xs[0] == "" then Body([], xs[1..], true)
    else
      var b := TakeBody(xs[1..]);
      b.(lines := [xs[0]] + b.lines)
  }

  /** `payload += line + "\n"` for each line, then `payload.rstrip("\n")`. */
  function Payload(lines: seq<string>): string {
    RStrip(Terminated(lines), IsNewline)
  }

  /** What a line opens: a caption (the match of the timing expression), a comment (group 1 of its match) or a header block. */
  datatype Opening =
    | OpensCaption(head: CaptionHeadMatch)
    | OpensComment(group: Option<string>)
    | OpensHeader(kind: HeaderKind)

  /** The `if`/`elif` chain of the loop, tried in its order. */
  function Opens(line: string, syn: Syntax): Option<Opening> {
    match syn.captionHead(line)
    case Some(head) => Some(OpensCaption(head))
    case None =>
      match syn.commentHead(line)
      case Some(group) => Some(OpensComment(group))
      case None =>
        if IsHeaderLine(line, "REGION") then Some(OpensHeader(RegionHeader))
        else if IsHeaderLine(line, "STYLE") then Some(OpensHeader(StyleHeader))
        else None
  }

  /**
   * The block a line opens, given the previous line and the body lines.
   * A timing that `split_subtitles_timestamp` rejects raises.
   */
  function EntryOf(opening: Opening, prev: string, body: seq<string>): Result<Entry, TimeError> {
    match opening
    case OpensCaption(head) =>
      var times :- SplitTimestamp(head.timing);
      Ok(CaptionEntry(prev, times.0, times.1, head.settings, Payload(body)))
    case OpensComment(group) =>
      var text := if group.Some? then [group.value] + body else body;
      Ok(CommentEntry(Payload(text), group.Some?))
    case OpensHeader(kind) =>
      Ok(HeaderEntry(kind, Payload(body)))
  }

  /**
   * The outer loop over `lines`, `prev` being `prev_line`. A block that
   * ends at an empty line leaves `prev_line` empty; a raised error ends the
   * reading.
   */
  function Scan(lines: seq<string>, prev: string, syn: Syntax): (r: Result<seq<Entry>, TimeError>)
    ensures r.Ok? ==> |r.value| <= |lines|
    ensures (forall k :: 0 <= k < |lines| ==> Plain(lines[k], syn)) ==> r == Ok([])
    decreases |lines|
  {
    if |lines| == 0 then Ok([])
    else
      var line, rest := lines[0], lines[1..];
      match Opens(line, syn)
      case None => Scan(rest, line, syn)
      case Some(opening) =>
        var body := TakeBody(rest);
        var first :- EntryOf(opening, prev, body.lines);
        var tail :- Scan(body.rest, if body.closed then "" else line, syn);
        Ok([first] + tail)
  }

  /** A line none of the expressions recognise. */
  predicate Plain(line: string, syn: Syntax) {
    Opens(line, syn).None?
  }

  // ---------------------------------------------------------------- properties

  /** A line that opens nothing creates no block and becomes the previous line. */
  lemma ScanPlain(line: string, rest: seq<string>, prev: string, syn: Syntax)
    requires Plain(line, syn)
    ensures Scan([line] + rest, prev, syn) == Scan(rest, line, syn)
  {
    assert ([line] + rest)[1..] == rest;
  }

  lemma EmptyLinePlain()
    ensures Plain("", Current)
  {
    assert !StartsWith("", "NOTE");
    assert RStrip("", IsBlank) == "";
  }

  /** An empty line resets the previous line, so the caption after it has no identifier. */
  lemma ScanEmptyLine(rest: seq<string>, prev: string)
    ensures Scan([""] + rest, prev, Current) == Scan(rest, "", Current)
  {
    EmptyLinePlain();
    ScanPlain("", rest, prev, Current);
  }

  /** The body of a block is its non-empty lines up to the first empty line. */
  lemma {:induction false} TakeBodyOf(body: seq<string>, rest: seq<string>)
    requires forall k :: 0 <= k < |body| ==> body[k] != ""
    ensures TakeBody(body + [""] + rest) == Body(body, rest, true)
    decreases |body|
  {
    if |body| > 0 {
      assert (body + [""] + rest)[1..] == body[1..] + [""] + rest;
      TakeBodyOf(body[1..], rest);
      assert [body[0]] + body[1..] == body;
    } else {
      assert body + [""] + rest == [""] + rest;
    }
  }

  lemma {:induction false} TakeBodySnoc(xs: seq<string>)
    ensures TakeBody(xs + [""]).lines == TakeBody(xs).lines
    ensures TakeBody(xs + [""]).closed
    ensures TakeBody(xs).closed ==> TakeBody(xs + [""]).rest == TakeBody(xs).rest + [""]
    ensures !TakeBody(xs).closed ==> TakeBody(xs + [""]).rest == []
    decreases |xs|
  {
    if |xs| == 0 {
      assert xs + [""] == [""];
    } else {
      assert (xs + [""])[0] == xs[0];
      assert (xs + [""])[1..] == xs[1..] + [""];
      if xs[0] != "" {
        TakeBodySnoc(xs[1..]);
      }
    }
  }

  /** An empty line at the very end changes nothing. */
  lemma {:induction false} ScanSnocEmpty(lines: seq<string>, prev: string)
    ensures Scan(lines + [""], prev, Current) == Scan(lines, prev, Current)
    decreases |lines|
  {
    if |lines| == 0 {
      assert lines + [""] == [""] + [];
      ScanEmptyLine([], prev);
    } else {
      var line, rest := lines[0], lines[1..];
      assert (lines + [""])[0] == line;
      assert (lines + [""])[1..] == rest + [""];
      var body := TakeBody(rest);
      TakeBodySnoc(rest);
      if Plain(line, Current) {
        ScanSnocEmpty(rest, line);
      } else if body.closed {
        ScanSnocEmpty(body.rest, "");
      }
    }
  }

  /** Empty lines at the end change nothing. */
  lemma {:induction false} ScanTrimEmpty(lines: seq<string>, prev: string)
    ensures Scan(TrimEmpty(lines), prev, Current) == Scan(lines, prev, Current)
    decreases |lines|
  {
    if |lines| > 0 && lines[|lines| - 1] == "" {
      var init := lines[..|lines| - 1];
      assert lines == init + [""];
      ScanTrimEmpty(init, prev);
      ScanSnocEmpty(init, prev);
    }
  }

  /** The payload of a block is its lines joined by `\n`. */
  lemma PayloadJoins(lines: seq<string>)
    requires forall k :: 0 <= k < |lines| ==> lines[k] != "" && '\n' !in lines[k]
    ensures Payload(lines) == Join(lines, "\n")
  {
    RStripTerminated(lines);
    assert TrimEmpty(lines) == lines;
  }
}
