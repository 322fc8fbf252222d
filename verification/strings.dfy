/**
 * The Python `str` operations the subtitle code is built from, over `string`
 * (a sequence of Unicode scalar values). Case mapping is ASCII-only and
 * digits are the ASCII digits.
 */
module Strings {

  predicate IsDigit(c: char) {
    '0' <= c <= '9'
  }

  /** Python `str.isspace`, which is also the set regex `\s` matches in a `str` pattern. */
  predicate IsSpace(c: char) {
    || c == ' ' || '\t' <= c <= '\r'
    || '\U{1C}' <= c <= '\U{1F}'
    || c == '\U{85}' || c == '\U{A0}' || c == '\U{1680}'
    || '\U{2000}' <= c <= '\U{200A}'
    || c == '\U{2028}' || c == '\U{2029}' || c == '\U{202F}' || c == '\U{205F}' || c == '\U{3000}'
  }

  /** The line boundaries of Python `str.splitlines`. */
  predicate IsLineBreak(c: char) {
    || '\n' <= c <= '\r'
    || '\U{1C}' <= c <= '\U{1E}'
    || c == '\U{85}' || c == '\U{2028}' || c == '\U{2029}'
  }

  predicate IsNewline(c: char) {
    c == '\n'
  }

  /** The `[ \t]` class of the WebVTT regular expressions. */
  predicate IsBlank(c: char) {
    c == ' ' || c == '\t'
  }

  predicate NoBreaks(l: string) {
    forall i :: 0 <= i < |l| ==> !IsLineBreak(l[i])
  }

  predicate AllDigits(s: string) {
    forall i :: 0 <= i < |s| ==> IsDigit(s[i])
  }

  /** Python `s.startswith(p)`. */
  predicate StartsWith(s: string, p: string) {
    |p| <= |s| && s[..|p|] == p
  }

  /** Python `s.endswith(p)`. */
  predicate EndsWith(s: string, p: string) {
    |p| <= |s| && s[|s| - |p|..] == p
  }

  /** Python `p in s` on two strings. */
  predicate Contains(s: string, p: string)
    decreases |s|
  {
    StartsWith(s, p) || (|s| > 0 && Contains(s[1..], p))
  }

  // ---------------------------------------------------------------- case

  function LowerChar(c: char): char {
    if 'A' <= c <= 'Z' then (c as int + 32) as char else c
  }

  function UpperChar(c: char): char {
    if 'a' <= c <= 'z' then (c as int - 32) as char else c
  }

  /** Python `str.lower` (and `str.casefold`), ASCII letters only. */
  function Lower(s: string): (r: string)
    ensures |r| == |s|
  {
    seq(|s|, i requires 0 <= i < |s| => LowerChar(s[i]))
  }

  /** Python `str.upper`, ASCII letters only. */
  function Upper(s: string): (r: string)
    ensures |r| == |s|
  {
    seq(|s|, i requires 0 <= i < |s| => UpperChar(s[i]))
  }

  lemma LowerIdempotent(s: string)
    ensures Lower(Lower(s)) == Lower(s)
  {
  }

  // ---------------------------------------------------------------- strip

  /** Python `s.rstrip(chars)`, the stripped characters given by `drop`. */
  function RStrip(s: string, drop: char -> bool): (r: string)
    ensures |r| <= |s| && r == s[..|r|]
    ensures |r| == 0 || !drop(r[|r| - 1])
    ensures forall i :: |r| <= i < |s| ==> drop(s[i])
    decreases |s|
  {
    if |s| > 0 && drop(s[|s| - 1]) then
      var r := RStrip(s[..|s| - 1], drop);
      assert s[..|s| - 1][..|r|] == s[..|r|];
      assert forall i :: |r| <= i < |s| - 1 ==> s[i] == s[..|s| - 1][i];
      r
    else s
  }

  /** Python `s.lstrip(chars)`, the stripped characters given by `drop`. */
  function LStrip(s: string, drop: char -> bool): (r: string)
    ensures |r| <= |s| && r == s[|s| - |r|..]
    ensures |r| == 0 || !drop(r[0])
    ensures forall i :: 0 <= i < |s| - |r| ==> drop(s[i])
    decreases |s|
  {
    if |s| > 0 && drop(s[0]) then
      var r := LStrip(s[1..], drop);
      assert s[1..][|s| - 1 - |r|..] == s[|s| - |r|..];
      assert forall i :: 1 <= i < |s| - |r| ==> s[i] == s[1..][i - 1];
      r
    else s
  }

  /** Python `str.strip()` without argument: trims whitespace at both ends. */
  function Strip(s: string): (r: string)
    ensures |r| == 0 || (!IsSpace(r[0]) && !IsSpace(r[|r| - 1]))
  {
    LStrip(RStrip(s, IsSpace), IsSpace)
  }

  lemma RStripNewline(s: string)
    ensures RStrip(s + "\n", IsNewline) == RStrip(s, IsNewline)
  {
    assert (s + "\n")[..|s|] == s;
  }

  /** Stripping stops at a kept character, so everything up to it stays. */
  lemma RStripPrefix(s: string, n: nat, drop: char -> bool)
    requires 0 < n <= |s| && !drop(s[n - 1])
    ensures StartsWith(RStrip(s, drop), s[..n])
  {
    var r := RStrip(s, drop);
    assert |r| >= n;
    assert r[..n] == s[..n];
  }

  lemma RStripKeeps(s: string, drop: char -> bool)
    requires |s| == 0 || !drop(s[|s| - 1])
    ensures RStrip(s, drop) == s
  {
  }

  // ---------------------------------------------------------------- replace

  /** Python `s.replace(pat, rep)`: left to right, non-overlapping. */
  function Replace(s: string, pat: string, rep: string): (r: string)
    ensures forall c :: c in r ==> c in s || c in rep
    decreases |s|
  {
    if |pat| == 0 then
      if |s| == 0 then rep else rep + [s[0]] + Replace(s[1..], pat, rep)
    else if |s| < |pat| then s
    else if s[..|pat|] == pat then rep + Replace(s[|pat|..], pat, rep)
    else [s[0]] + Replace(s[1..], pat, rep)
  }

  lemma {:induction false} ReplaceCharAbsent(s: string, c: char, rep: string)
    requires c !in s
    ensures Replace(s, [c], rep) == s
  {
    if |s| > 0 {
      assert s[..1] == [s[0]];
      ReplaceCharAbsent(s[1..], c, rep);
    }
  }

  lemma {:induction false} ReplaceCharConcat(a: string, b: string, c: char, rep: string)
    ensures Replace(a + b, [c], rep) == Replace(a, [c], rep) + Replace(b, [c], rep)
  {
    if |a| == 0 {
      assert a + b == b;
    } else {
      assert (a + b)[..1] == a[..1] == [a[0]];
      assert (a + b)[1..] == a[1..] + b;
      ReplaceCharConcat(a[1..], b, c, rep);
    }
  }

  lemma {:induction false} ReplaceCharGone(s: string, c: char, rep: string)
    requires c !in rep
    ensures c !in Replace(s, [c], rep)
  {
    if |s| > 0 {
      assert s[..1] == [s[0]];
      ReplaceCharGone(s[1..], c, rep);
    }
  }

  /** A pattern with a character the text lacks never occurs, so nothing is replaced. */
  lemma {:induction false} ReplaceMissing(s: string, pat: string, rep: string, k: nat)
    requires k < |pat| && pat[k] !in s
    ensures Replace(s, pat, rep) == s
    decreases |s|
  {
    if |s| >= |pat| {
      assert s[..|pat|][k] == s[k];
      ReplaceMissing(s[1..], pat, rep, k);
      assert [s[0]] + s[1..] == s;
    }
  }

  // ---------------------------------------------------------------- filter

  /** The characters of `s` that are not in `chars`, in order. */
  function Without(s: string, chars: seq<char>): (r: string)
    ensures forall x :: x in r <==> x in s && x !in chars
    ensures |r| <= |s|
  {
    if |s| == 0 then []
    else (if s[0] in chars then [] else [s[0]]) + Without(s[1..], chars)
  }

  lemma {:induction false} WithoutConcat(a: string, b: string, chars: seq<char>)
    ensures Without(a + b, chars) == Without(a, chars) + Without(b, chars)
  {
    if |a| == 0 {
      assert a + b == b;
    } else {
      assert (a + b)[1..] == a[1..] + b;
      WithoutConcat(a[1..], b, chars);
    }
  }

  lemma WithoutNothing(s: string, chars: seq<char>)
    requires forall x :: x in s ==> x !in chars
    ensures Without(s, chars) == s
  {
  }

  lemma {:induction false} ReplaceByNothing(s: string, c: char)
    ensures Replace(s, [c], "") == Without(s, [c])
  {
    if |s| > 0 {
      assert s[..1] == [s[0]];
      ReplaceByNothing(s[1..], c);
    }
  }

  lemma {:induction false} WithoutTwice(s: string, c: char, rest: seq<char>)
    ensures Without(Without(s, [c]), rest) == Without(s, [c] + rest)
  {
    if |s| > 0 {
      WithoutTwice(s[1..], c, rest);
      if s[0] == c {
        assert s[0] in [c] + rest;
        assert Without(s, [c]) == Without(s[1..], [c]);
      } else {
        assert Without(s, [c]) == [s[0]] + Without(s[1..], [c]);
        assert ([s[0]] + Without(s[1..], [c]))[1..] == Without(s[1..], [c]);
      }
    }
  }

  /**
   * Python `for c in chars: s = s.replace(c, '')`: deletes every occurrence
   * of each character of `chars`.
   */
  function RemoveChars(s: string, chars: seq<char>): (r: string)
    ensures r == Without(s, chars)
    decreases |chars|
  {
    if |chars| == 0 then
      WithoutNothing(s, chars);
      s
    else
      ReplaceByNothing(s, chars[0]);
      WithoutTwice(s, chars[0], chars[1..]);
      assert [chars[0]] + chars[1..] == chars;
      RemoveChars(Replace(s, [chars[0]], ""), chars[1..])
  }

  // ---------------------------------------------------------------- split and join

  /** Python `s.split(sep)` for a non-empty separator. */
  function Split(s: string, sep: string): (r: seq<string>)
    requires |sep| > 0
    ensures |r| >= 1
    decreases |s|
  {
    if |s| < |sep| then [s]
    else if s[..|sep|] == sep then [""] + Split(s[|sep|..], sep)
    else
      var t := Split(s[1..], sep);
      [[s[0]] + t[0]] + t[1..]
  }

  /** Python `sep.join(parts)`. */
  function Join(parts: seq<string>, sep: string): string
    decreases |parts|
  {
    if |parts| == 0 then ""
    else if |parts| == 1 then parts[0]
    else parts[0] + sep + Join(parts[1..], sep)
  }

  lemma JoinHead(c: char, t: seq<string>, sep: string)
    requires |t| >= 1
    ensures Join([[c] + t[0]] + t[1..], sep) == [c] + Join(t, sep)
  {
    var u := [[c] + t[0]] + t[1..];
    if |t| == 1 {
      assert u == [[c] + t[0]];
    } else {
      assert u[1..] == t[1..];
    }
  }

  /** Splitting and joining with the same separator gives back the text. */
  lemma {:induction false} JoinSplit(s: string, sep: string)
    requires |sep| > 0
    ensures Join(Split(s, sep), sep) == s
    decreases |s|
  {
    if |s| < |sep| {
    } else if s[..|sep|] == sep {
      var t := Split(s[|sep|..], sep);
      JoinSplit(s[|sep|..], sep);
      assert Split(s, sep) == [""] + t;
      assert ([""] + t)[1..] == t;
      assert s == s[..|sep|] + s[|sep|..];
    } else {
      var t := Split(s[1..], sep);
      JoinSplit(s[1..], sep);
      JoinHead(s[0], t, sep);
      assert s == [s[0]] + s[1..];
    }
  }

  lemma {:induction false} SplitWithout(s: string, sep: string)
    requires |sep| > 0 && sep[0] !in s
    ensures Split(s, sep) == [s]
    decreases |s|
  {
    if |s| >= |sep| {
      assert s[..|sep|][0] == s[0];
      SplitWithout(s[1..], sep);
      assert [s[0]] + s[1..] == s;
    }
  }

  /** A separator right after a separator-free prefix ends the first part. */
  lemma {:induction false} SplitAt(a: string, b: string, sep: string)
    requires |sep| > 0 && sep[0] !in a
    ensures Split(a + sep + b, sep) == [a] + Split(b, sep)
    decreases |a|
  {
    var s := a + sep + b;
    if |a| == 0 {
      assert s == sep + b;
      assert s[..|sep|] == sep;
      assert s[|sep|..] == b;
    } else {
      assert s[..|sep|][0] == a[0];
      assert s[1..] == a[1..] + sep + b;
      SplitAt(a[1..], b, sep);
      assert [a[0]] + a[1..] == a;
    }
  }

  /** A join ends with its last part. */
  lemma {:induction false} JoinEnds(parts: seq<string>, sep: string)
    requires |parts| > 0 && |parts[|parts| - 1]| > 0
    ensures var j := Join(parts, sep); var last := parts[|parts| - 1];
      |j| >= |last| && j[|j| - |last|..] == last
    decreases |parts|
  {
    if |parts| > 1 {
      JoinEnds(parts[1..], sep);
    }
  }

  /** A join starts with its first part. */
  lemma JoinStarts(parts: seq<string>, sep: string)
    requires |parts| > 0
    ensures StartsWith(Join(parts, sep), parts[0])
  {
  }

  lemma {:induction false} JoinAppend(parts: seq<string>, x: string, sep: string)
    requires |parts| > 0
    ensures Join(parts + [x], sep) == Join(parts, sep) + sep + x
    decreases |parts|
  {
    if |parts| > 1 {
      assert (parts + [x])[1..] == parts[1..] + [x];
      JoinAppend(parts[1..], x, sep);
    }
  }

  // ---------------------------------------------------------------- lines

  /** Each line followed by `\n`: what `for l in lines: out += l + "\n"` builds. */
  function Terminated(lines: seq<string>): string
    decreases |lines|
  {
    if |lines| == 0 then "" else lines[0] + "\n" + Terminated(lines[1..])
  }

  /** Drops the empty lines at the end. */
  function TrimEmpty(lines: seq<string>): (r: seq<string>)
    ensures |r| <= |lines| && r == lines[..|r|]
    ensures |r| == 0 || r[|r| - 1] != ""
    ensures forall k :: |r| <= k < |lines| ==> lines[k] == ""
    decreases |lines|
  {
    if |lines| > 0 && lines[|lines| - 1] == "" then TrimEmpty(lines[..|lines| - 1]) else lines
  }

  function LineEnd(s: string): (i: nat)
    ensures i <= |s| && NoBreaks(s[..i]) && (i < |s| ==> IsLineBreak(s[i]))
  {
    if |s| == 0 || IsLineBreak(s[0]) then 0 else 1 + LineEnd(s[1..])
  }

  /** Python `str.splitlines()`: a `\r\n` pair is one boundary, no trailing empty line. */
  function SplitLines(s: string): (r: seq<string>)
    ensures forall k :: 0 <= k < |r| ==> NoBreaks(r[k])
    decreases |s|
  {
    if |s| == 0 then []
    else
      var i := LineEnd(s);
      if i == |s| then [s]
      else
        var w := if s[i] == '\r' && i + 1 < |s| && s[i + 1] == '\n' then 2 else 1;
        [s[..i]] + SplitLines(s[i + w..])
  }

  lemma {:induction false} LineEndAt(a: string, b: string)
    requires NoBreaks(a)
    ensures LineEnd(a + "\n" + b) == |a|
    decreases |a|
  {
    if |a| > 0 {
      assert (a + "\n" + b)[1..] == a[1..] + "\n" + b;
      LineEndAt(a[1..], b);
    }
  }

  lemma {:induction false} LineEndWhole(a: string)
    requires NoBreaks(a)
    ensures LineEnd(a) == |a|
    decreases |a|
  {
    if |a| > 0 {
      LineEndWhole(a[1..]);
    }
  }

  lemma SplitLinesOfLine(a: string, b: string)
    requires NoBreaks(a)
    ensures SplitLines(a + "\n" + b) == [a] + SplitLines(b)
  {
    var s := a + "\n" + b;
    LineEndAt(a, b);
    assert s[|a|] == '\n';
    assert s[..|a|] == a;
    assert s[|a| + 1..] == b;
  }

  lemma JoinCons(lines: seq<string>)
    requires |lines| > 1
    ensures Join(lines, "\n") == lines[0] + "\n" + Join(lines[1..], "\n")
  {
  }

  lemma {:induction false} SplitLinesOfJoin(lines: seq<string>)
    requires forall k :: 0 <= k < |lines| ==> NoBreaks(lines[k])
    requires |lines| == 0 || lines[|lines| - 1] != ""
    ensures SplitLines(Join(lines, "\n")) == lines
    decreases |lines|
  {
    if |lines| == 1 {
      LineEndWhole(lines[0]);
    } else if |lines| > 1 {
      var rest := lines[1..];
      JoinCons(lines);
      assert [lines[0]] + rest == lines;
      assert rest[|rest| - 1] == lines[|lines| - 1];
      assert forall k :: 0 <= k < |rest| ==> NoBreaks(rest[k]) by {
        forall k | 0 <= k < |rest|
          ensures NoBreaks(rest[k])
        {
          assert rest[k] == lines[k + 1];
        }
      }
      assert NoBreaks(lines[0]);
      SplitLinesOfJoin(rest);
      SplitLinesOfLine(lines[0], Join(rest, "\n"));
    }
  }


  lemma {:induction false} TerminatedSnoc(lines: seq<string>, x: string)
    ensures Terminated(lines + [x]) == Terminated(lines) + x + "\n"
    decreases |lines|
  {
    if |lines| > 0 {
      assert (lines + [x])[1..] == lines[1..] + [x];
      TerminatedSnoc(lines[1..], x);
    }
  }

  lemma {:induction false} TerminatedConcat(a: seq<string>, b: seq<string>)
    ensures Terminated(a + b) == Terminated(a) + Terminated(b)
    decreases |a|
  {
    if |a| > 0 {
      assert (a + b)[0] == a[0] && (a + b)[1..] == a[1..] + b;
      TerminatedConcat(a[1..], b);
      assert Terminated(a) == a[0] + "\n" + Terminated(a[1..]);
      assert Terminated(a + b) == a[0] + "\n" + Terminated(a[1..] + b);
    } else {
      assert a + b == b;
    }
  }

  lemma {:induction false} JoinSnoc(lines: seq<string>, x: string)
    ensures Join(lines + [x], "\n") == Terminated(lines) + x
    decreases |lines|
  {
    if |lines| > 0 {
      assert (lines + [x])[1..] == lines[1..] + [x];
      JoinSnoc(lines[1..], x);
    }
  }

  /** The text a line list terminates, right-stripped of `\n`, joins the lines up to the last non-empty one. */
  lemma {:induction false} RStripTerminated(lines: seq<string>)
    requires forall k :: 0 <= k < |lines| ==> '\n' !in lines[k]
    ensures RStrip(Terminated(lines), IsNewline) == Join(TrimEmpty(lines), "\n")
    decreases |lines|
  {
    if |lines| > 0 {
      var init := lines[..|lines| - 1];
      var x := lines[|lines| - 1];
      assert lines == init + [x];
      TerminatedSnoc(init, x);
      if x == "" {
        assert Terminated(lines) == Terminated(init) + "\n";
        RStripNewline(Terminated(init));
        RStripTerminated(init);
        assert TrimEmpty(lines) == TrimEmpty(init);
      } else {
        var t := Terminated(init) + x;
        assert Terminated(lines) == t + "\n";
        RStripNewline(t);
        assert t[|t| - 1] == x[|x| - 1];
        assert x[|x| - 1] in x;
        RStripKeeps(t, IsNewline);
        JoinSnoc(init, x);
        assert TrimEmpty(lines) == lines;
      }
    }
  }

  /** Reading back the lines of a `\n`-terminated, right-stripped text. */
  lemma SplitLinesOfStripped(lines: seq<string>)
    requires forall k :: 0 <= k < |lines| ==> NoBreaks(lines[k])
    ensures SplitLines(RStrip(Terminated(lines), IsNewline)) == TrimEmpty(lines)
  {
    LinesHaveNoNewline(lines);
    RStripTerminated(lines);
    TrimEmptyNoBreaks(lines);
    SplitLinesOfJoin(TrimEmpty(lines));
  }

  lemma LinesHaveNoNewline(lines: seq<string>)
    requires forall k :: 0 <= k < |lines| ==> NoBreaks(lines[k])
    ensures forall k :: 0 <= k < |lines| ==> '\n' !in lines[k]
  {
    forall k | 0 <= k < |lines|
      ensures '\n' !in lines[k]
    {
      assert NoBreaks(lines[k]);
    }
  }

  lemma TrimEmptyNoBreaks(lines: seq<string>)
    requires forall k :: 0 <= k < |lines| ==> NoBreaks(lines[k])
    ensures forall k :: 0 <= k < |TrimEmpty(lines)| ==> NoBreaks(TrimEmpty(lines)[k])
  {
    var t := TrimEmpty(lines);
    forall k | 0 <= k < |t|
      ensures NoBreaks(t[k])
    {
      assert t[k] == lines[k];
    }
  }

  // ---------------------------------------------------------------- decimal

  function DigitChar(d: nat): (c: char)
    requires d < 10
    ensures IsDigit(c)
  {
    ('0' as int + d) as char
  }

  function DigitValue(c: char): nat
    requires IsDigit(c)
  {
    c as int - '0' as int
  }

  /** Python `str(n)` for a natural number. */
  function NatToString(n: nat): (r: string)
    ensures |r| >= 1 && AllDigits(r)
    decreases n
  {
    if n < 10 then [DigitChar(n)] else NatToString(n / 10) + [DigitChar(n % 10)]
  }

  /** Python `str(i)` for an integer. */
  function IntToString(i: int): string {
    if i < 0 then "-" + NatToString(-i) else NatToString(i)
  }

  /** The value of a string of decimal digits. */
  function DecimalValue(s: string): nat
    requires AllDigits(s)
    decreases |s|
  {
    if |s| == 0 then 0 else DecimalValue(s[..|s| - 1]) * 10 + DigitValue(s[|s| - 1])
  }

  lemma {:induction false} DecimalOfNatToString(n: nat)
    ensures DecimalValue(NatToString(n)) == n
    decreases n
  {
    if n >= 10 {
      var s := NatToString(n);
      assert s[..|s| - 1] == NatToString(n / 10);
      DecimalOfNatToString(n / 10);
    }
  }

  lemma NatToStringInjective(a: nat, b: nat)
    requires NatToString(a) == NatToString(b)
    ensures a == b
  {
    DecimalOfNatToString(a);
    DecimalOfNatToString(b);
  }
}
