/**
 * Right-to-left fixing of a caption payload, shared by the current and the
 * legacy caption classes: every direction-control character is deleted,
 * then the right-to-left mark is put at the start of every line.
 */
module Rtl {
  import opened Strings

  /** The direction-control characters removed before fixing (LRM, RLM, LRE, RLE, PDF, LRO, RLO). */
  const ControlChars: seq<char> :=
    ['\U{200E}', '\U{200F}', '\U{202A}', '\U{202B}', '\U{202C}', '\U{202D}', '\U{202E}']

  /** The mark put at the start of each line (RIGHT-TO-LEFT EMBEDDING). */
  const Mark: char := '\U{202B}'

  /**
   * `fix_rtl` on a payload: `for c in controls: p = p.replace(c, '')`, then
   * `mark + p.replace("\n", "\n" + mark)`.
   */
  function Fix(payload: string, mark: char, controls: seq<char>): (r: string)
    ensures |r| >= 1 && r[0] == mark
  {
    [mark] + Replace(RemoveChars(payload, controls), "\n", "\n" + [mark])
  }

  /** Every line with `mark` in front. */
  function MarkEach(mark: char, lines: seq<string>): (r: seq<string>)
    ensures |r| == |lines|
    ensures forall k :: 0 <= k < |r| ==> r[k] == [mark] + lines[k]
  {
    seq(|lines|, k requires 0 <= k < |lines| => [mark] + lines[k])
  }

  /** Number of occurrences of `c` in `s`. */
  function Occurrences(s: string, c: char): nat
  {
    if |s| == 0 then 0 else (if s[0] == c then 1 else 0) + Occurrences(s[1..], c)
  }

  lemma {:induction false} FirstOccurrence(s: string, c: char) returns (i: nat)
    requires c in s
    ensures i < |s| && s[i] == c && c !in s[..i]
  {
    if s[0] == c {
      i := 0;
    } else {
      assert c in s[1..];
      var j := FirstOccurrence(s[1..], c);
      i := j + 1;
      assert s[..i] == [s[0]] + s[1..][..j];
    }
  }

  /** `s.split(c)` has one more part than `s` has occurrences of `c`. */
  lemma {:induction false} SplitCount(s: string, c: char)
    ensures |Split(s, [c])| == Occurrences(s, c) + 1
    decreases |s|
  {
    if |s| >= 1 {
      assert s[..1] == [s[0]];
      SplitCount(s[1..], c);
    }
  }

  lemma {:induction false} OccurrencesWithout(s: string, c: char, chars: seq<char>)
    requires c !in chars
    ensures Occurrences(Without(s, chars), c) == Occurrences(s, c)
    decreases |s|
  {
    if |s| > 0 {
      OccurrencesWithout(s[1..], c, chars);
      if s[0] in chars {
        assert Without(s, chars) == Without(s[1..], chars);
      } else {
        assert Without(s, chars) == [s[0]] + Without(s[1..], chars);
        assert ([s[0]] + Without(s[1..], chars))[1..] == Without(s[1..], chars);
      }
    }
  }

  lemma ReplaceAtFirstNewline(a: string, b: string, rep: string)
    requires '\n' !in a
    ensures Replace(a + "\n" + b, "\n", rep) == a + rep + Replace(b, "\n", rep)
  {
    ReplaceCharConcat(a + "\n", b, '\n', rep);
    ReplaceCharConcat(a, "\n", '\n', rep);
    ReplaceCharAbsent(a, '\n', rep);
    assert Replace("\n", "\n", rep) == rep + Replace("", "\n", rep);
  }

  /** The lines of a fixed payload are the cleaned lines, each with the mark in front. */
  lemma MarkEachCons(mark: char, line: string, lines: seq<string>)
    ensures MarkEach(mark, [line] + lines) == [[mark] + line] + MarkEach(mark, lines)
  {
    var r := MarkEach(mark, [line] + lines);
    forall k | 0 <= k < |r|
      ensures r[k] == ([[mark] + line] + MarkEach(mark, lines))[k]
    {
      if k > 0 {
        assert ([line] + lines)[k] == lines[k - 1];
      }
    }
  }

  lemma {:induction false} MarkedLines(q: string, mark: char)
    requires mark != '\n'
    ensures Split([mark] + Replace(q, "\n", "\n" + [mark]), "\n") == MarkEach(mark, Split(q, "\n"))
    decreases |q|
  {
    if '\n' !in q {
      ReplaceCharAbsent(q, '\n', "\n" + [mark]);
      SplitWithout(q, "\n");
      SplitWithout([mark] + q, "\n");
    } else {
      var i := FirstOccurrence(q, '\n');
      var a, b := q[..i], q[i + 1..];
      assert q == a + "\n" + b;
      ReplaceAtFirstNewline(a, b, "\n" + [mark]);
      var rb := Replace(b, "\n", "\n" + [mark]);
      assert [mark] + Replace(q, "\n", "\n" + [mark]) == ([mark] + a) + "\n" + ([mark] + rb);
      SplitAt([mark] + a, [mark] + rb, "\n");
      SplitAt(a, b, "\n");
      MarkedLines(b, mark);
      MarkEachCons(mark, a, Split(b, "\n"));
    }
  }

  /** `fix_rtl` prefixes every line of the cleaned payload with the mark. */
  lemma FixLines(payload: string, mark: char, controls: seq<char>)
    requires mark != '\n'
    ensures Split(Fix(payload, mark, controls), "\n") == MarkEach(mark, Split(Without(payload, controls), "\n"))
  {
    MarkedLines(RemoveChars(payload, controls), mark);
  }

  /** `fix_rtl` keeps the number of lines of the payload. */
  lemma FixLineCount(payload: string, mark: char, controls: seq<char>)
    requires mark != '\n' && '\n' !in controls
    ensures |Split(Fix(payload, mark, controls), "\n")| == |Split(payload, "\n")|
  {
    FixLines(payload, mark, controls);
    SplitCount(Without(payload, controls), '\n');
    SplitCount(payload, '\n');
    OccurrencesWithout(payload, '\n', controls);
  }

  lemma {:induction false} WithoutMarked(q: string, mark: char, controls: seq<char>)
    requires mark in controls && '\n' !in controls
    ensures Without(Replace(q, "\n", "\n" + [mark]), controls) == Without(q, controls)
    decreases |q|
  {
    if |q| > 0 {
      var rest := Replace(q[1..], "\n", "\n" + [mark]);
      WithoutMarked(q[1..], mark, controls);
      assert q[..1] == [q[0]];
      if q[0] == '\n' {
        assert Replace(q, "\n", "\n" + [mark]) == "\n" + [mark] + rest;
        WithoutConcat("\n" + [mark], rest, controls);
        assert Without("\n" + [mark], controls) == "\n";
        assert Without(q, controls) == "\n" + Without(q[1..], controls);
      } else {
        assert Replace(q, "\n", "\n" + [mark]) == [q[0]] + rest;
        WithoutConcat([q[0]], rest, controls);
        WithoutConcat([q[0]], q[1..], controls);
        assert [q[0]] + q[1..] == q;
      }
    }
  }

  lemma {:induction false} WithoutIdempotent(s: string, chars: seq<char>)
    ensures Without(Without(s, chars), chars) == Without(s, chars)
    decreases |s|
  {
    if |s| > 0 {
      WithoutIdempotent(s[1..], chars);
      if s[0] !in chars {
        assert Without(s, chars) == [s[0]] + Without(s[1..], chars);
        assert ([s[0]] + Without(s[1..], chars))[1..] == Without(s[1..], chars);
      } else {
        assert Without(s, chars) == Without(s[1..], chars);
      }
    }
  }

  /** Fixing twice is fixing once, when the mark is itself one of the removed characters. */
  lemma FixIdempotent(payload: string, mark: char, controls: seq<char>)
    requires mark in controls && '\n' !in controls
    ensures Fix(Fix(payload, mark, controls), mark, controls) == Fix(payload, mark, controls)
  {
    var q := Without(payload, controls);
    var once := Fix(payload, mark, controls);
    assert once == [mark] + Replace(q, "\n", "\n" + [mark]);
    WithoutConcat([mark], Replace(q, "\n", "\n" + [mark]), controls);
    WithoutMarked(q, mark, controls);
    WithoutIdempotent(payload, controls);
    assert Without(once, controls) == q;
  }

  /** The constants of the subtitle model meet the conditions of the lemmas above. */
  lemma ConstantsFit()
    ensures Mark in ControlChars && '\n' !in ControlChars && Mark != '\n'
  {
  }
}
