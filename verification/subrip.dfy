/**
 * `SubRipSubtitles.dumps` and `loads` of the current model. A SubRip caption
 * block is `Blocks.SubRipCaption`; its text form is `Blocks.Str`, its
 * equality `Blocks.Same` and its conversion `Blocks.ToSrt`. The numbering
 * here is shared with the legacy SubRip writer.
 */
module SubRip {
  import opened Results
  import opened Strings
  import opened Timing
  import opened Blocks
  import Seqs

  /** Each text followed by a blank line: `for t in texts: out += t + "\n\n"`. */
  function Paragraphs(texts: seq<string>): string
    decreases |texts|
  {
    if |texts| == 0 then "" else texts[0] + "\n\n" + Paragraphs(texts[1..])
  }

  /** One paragraph of the document: the counter line, then the block text. */
  function NumberedText(n: nat, text: string): string {
    NatToString(n) + "\n" + text
  }

  /** The texts, each behind its counter line: the first is `1`, the next `2`, and so on without gaps. */
  function Numbered(texts: seq<string>): (r: seq<string>)
    ensures |r| == |texts|
  {
    seq(|texts|, i requires 0 <= i < |texts| => NumberedText(i + 1, texts[i]))
  }

  /** The SubRip document of a list of block texts: numbered paragraphs, trailing newlines stripped. */
  function Render(texts: seq<string>): string {
    RStrip(Paragraphs(Numbered(texts)), IsNewline)
  }

  /** Why `loads` gives no subtitles. */
  datatype LoadError = NotImplemented

  /** `SubRipSubtitles.loads`: reading SubRip is not supported, whatever the text. */
  function Loads(data: string): (r: Result<seq<Block>, LoadError>)
    ensures r.Err? && r.error == NotImplemented
  {
    Err(NotImplemented)
  }

  // ---------------------------------------------------------------- the writer loop

  lemma {:induction false} ParagraphsSnoc(texts: seq<string>, t: string)
    ensures Paragraphs(texts + [t]) == Paragraphs(texts) + t + "\n\n"
    decreases |texts|
  {
    if |texts| > 0 {
      assert (texts + [t])[1..] == texts[1..] + [t];
      ParagraphsSnoc(texts[1..], t);
    } else {
      assert texts + [t] == [t];
    }
  }

  lemma NumberedSnoc(texts: seq<string>, t: string)
    ensures Numbered(texts + [t]) == Numbered(texts) + [NumberedText(|texts| + 1, t)]
  {
    var a := Numbered(texts + [t]);
    var b := Numbered(texts) + [NumberedText(|texts| + 1, t)];
    assert |a| == |b|;
    forall k | 0 <= k < |a|
      ensures a[k] == b[k]
    {
      if k < |texts| {
        assert (texts + [t])[k] == texts[k];
      }
    }
  }

  /** One more text adds its numbered paragraph at the end. */
  lemma NumberedParagraphsSnoc(texts: seq<string>, t: string)
    ensures Paragraphs(Numbered(texts + [t])) == Paragraphs(Numbered(texts)) + NumberedText(|texts| + 1, t) + "\n\n"
  {
    NumberedSnoc(texts, t);
    ParagraphsSnoc(Numbered(texts), NumberedText(|texts| + 1, t));
  }

  lemma MapSnoc(blocks: seq<Block>, i: nat)
    requires i < |blocks|
    ensures Seqs.Map(Str, blocks[..i + 1]) == Seqs.Map(Str, blocks[..i]) + [Str(blocks[i])]
  {
    assert blocks[..i + 1] == blocks[..i] + [blocks[i]];
    Seqs.MapConcat(Str, blocks[..i], [blocks[i]]);
  }

  /**
   * `SubRipSubtitles.dumps`: every block as `count\n<block>\n\n`, the count
   * running from 1, then trailing newlines stripped; no blocks give "".
   */
  method Dumps(blocks: seq<Block>) returns (r: string)
    ensures r == Render(Seqs.Map(Str, blocks))
    ensures |blocks| == 0 ==> r == ""
  {
    var text := "";
    var count := 0;
    for i := 0 to |blocks|
      invariant count == i
      invariant text == Paragraphs(Numbered(Seqs.Map(Str, blocks[..i])))
    {
      var prefix := Seqs.Map(Str, blocks[..i]);
      MapSnoc(blocks, i);
      NumberedSnoc(prefix, Str(blocks[i]));
      ParagraphsSnoc(Numbered(prefix), NumberedText(count + 1, Str(blocks[i])));
      text := text + NumberedText(count + 1, Str(blocks[i])) + "\n\n";
      count := count + 1;
    }
    assert blocks[..|blocks|] == blocks;
    r := RStrip(text, IsNewline);
  }

  // ---------------------------------------------------------------- properties

  lemma {:induction false} ParagraphsJoin(texts: seq<string>)
    requires |texts| > 0
    ensures Paragraphs(texts) == Join(texts, "\n\n") + "\n\n"
    decreases |texts|
  {
    if |texts| > 1 {
      ParagraphsJoin(texts[1..]);
    }
  }

  /**
   * When the last text does not end in a newline, the document is the
   * numbered texts separated by one blank line each: nothing of a block is
   * stripped and the counters are 1 to K in block order.
   */
  lemma RenderJoins(texts: seq<string>)
    requires |texts| > 0 ==> |texts[|texts| - 1]| > 0 && !IsNewline(texts[|texts| - 1][|texts[|texts| - 1]| - 1])
    ensures Render(texts) == Join(Numbered(texts), "\n\n")
    ensures |texts| > 0 ==> StartsWith(Render(texts), "1\n" + texts[0])
  {
    if |texts| > 0 {
      var numbered := Numbered(texts);
      ParagraphsJoin(numbered);
      var j := Join(numbered, "\n\n");
      var last := numbered[|numbered| - 1];
      assert last == NumberedText(|texts|, texts[|texts| - 1]);
      assert j[|j| - 1] == last[|last| - 1] by {
        JoinEnds(numbered, "\n\n");
      }
      RStripNewlines(j);
      assert Render(texts) == j;
      JoinStarts(numbered, "\n\n");
      assert numbered[0] == "1\n" + texts[0];
    }
  }

  lemma RStripNewlines(j: string)
    requires |j| > 0 && !IsNewline(j[|j| - 1])
    ensures RStrip(j + "\n\n", IsNewline) == j
  {
    assert j + "\n\n" == (j + "\n") + "\n";
    RStripNewline(j + "\n");
    RStripNewline(j);
    RStripKeeps(j, IsNewline);
  }

  /** With no blocks, the document is empty. */
  lemma RenderEmpty()
    ensures Render([]) == ""
  {
  }

  /**
   * A SubRip caption block is its timing line, a newline and the payload,
   * and the timing line reads back as the block's times cut to milliseconds.
   */
  lemma SubRipBlockText(b: Block)
    requires b.SubRipCaption?
    ensures |Str(b)| >= 30 && Str(b)[29] == '\n' && Str(b)[30..] == b.payload
    ensures SplitTimestamp(Str(b)[..29]) == Ok((TruncateToMillis(b.startTime), TruncateToMillis(b.endTime)))
  {
    var line := TimingLine(b.startTime, b.endTime, ',');
    assert Str(b) == line + "\n" + b.payload;
    assert |line| == 29;
    assert Str(b)[..29] == line;
    SplitFormattedTimestamp(b.startTime, b.endTime, ',');
  }
}
