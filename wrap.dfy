/** The renderer of helpText.js (`toString`, lines 152-190): fragments are joined,
    split into source lines, and, when a wrap width is in force, every source line
    is greedily wrapped word by word, carrying the visible length of the last line
    across fragments.

    Visible width is not part of this model: `Measure.width` stands for the
    library's `style.len` on a string, and `Measure.linesWidth` for what that
    function returns when it is handed an array of lines (helpText.js:183). */
module Wrap {
  import opened Strings
  import opened Fragments

  datatype Measure = Measure(width: string -> nat, linesWidth: seq<string> -> nat)

  /** The `wrapIndent` empty placeholder cells that open a continuation line. */
  function Indent(k: nat): (r: seq<string>)
    ensures |r| == k && forall i :: 0 <= i < k ==> r[i] == ""
  {
    seq(k, _ => "")
  }

  function JoinWords(line: seq<string>): string
  {
    Join(line, " ")
  }

  /** Carry counted on the first wrapped line only (helpText.js:170-172). */
  function Base(i: nat, carry: nat): nat
  {
    if i == 0 then carry else 0
  }

  /** One step of the word loop (helpText.js:167-182): the word goes on the current
      line, or opens a new line seeded with `indent` placeholders when the current
      visible length plus the word's plus one exceeds the wrap width. */
  function Place(lines: seq<seq<string>>, word: string, carry: nat, indent: nat, wrap: int,
                 width: string -> nat): (r: seq<seq<string>>)
    requires |lines| > 0
    ensures |r| > 0
  {
    var line := lines[|lines| - 1];
    var lineLength := Base(|lines| - 1, carry) + width(JoinWords(line));
    if lineLength + width(word) + 1 > wrap then lines + [Indent(indent) + [word]]
    else lines[..|lines| - 1] + [line + [word]]
  }

  function PlaceAll(lines: seq<seq<string>>, words: seq<string>, carry: nat, indent: nat, wrap: int,
                    width: string -> nat): (r: seq<seq<string>>)
    requires |lines| > 0
    ensures |r| > 0
    decreases |words|
  {
    if |words| == 0 then lines
    else PlaceAll(Place(lines, words[0], carry, indent, wrap, width), words[1..], carry, indent, wrap, width)
  }

  /** The wrapped lines of one source line, starting from `[[]]`. */
  function WrapWords(words: seq<string>, carry: nat, indent: nat, wrap: int, width: string -> nat): seq<seq<string>>
  {
    PlaceAll([[]], words, carry, indent, wrap, width)
  }

  /** Lines 164-185: every source line wrapped and its wrapped lines joined by
      newlines; the carry threads from each source line into the next. */
  function WrapSourceLines(ls: seq<string>, carry: nat, indent: nat, wrap: int, m: Measure): seq<string>
  {
    if |ls| == 0 then []
    else
      var wrapped := MapSeq(JoinWords, WrapWords(Split(ls[0], ' '), carry, indent, wrap, m.width));
      [Join(wrapped, "\n")] + WrapSourceLines(ls[1..], m.linesWidth(wrapped), indent, wrap, m)
  }

  /** Lines 162-188: one fragment rendered, with the carry it leaves for the next. */
  function RenderFragment(f: Fragment, carry: nat, wrap: int, m: Measure): (string, nat)
  {
    var lines := Split(Join(f.text, ""), '\n');
    var lines' := if wrap > 0 then Split(Join(WrapSourceLines(lines, carry, f.wrapIndent, wrap, m), "\n"), '\n')
                  else lines;
    (Join(lines', "\n"), m.width(lines'[|lines'| - 1]))
  }

  /** Lines 160-189: all fragments rendered in order and concatenated. */
  function Render(fs: seq<Fragment>, carry: nat, wrap: int, m: Measure): string
  {
    if |fs| == 0 then ""
    else
      var (s, carry') := RenderFragment(fs[0], carry, wrap, m);
      s + Render(fs[1..], carry', wrap, m)
  }

  // ---- what the greedy wrap guarantees ----

  /** Every line after the first opens with `indent` placeholders and holds a word. */
  predicate Shaped(lines: seq<seq<string>>, indent: nat)
  {
    |lines| >= 1 &&
    forall i :: 1 <= i < |lines| ==> |lines[i]| > indent && lines[i][..indent] == Indent(indent)
  }

  /** Every word that did not open its line passed the width test when it was placed. */
  predicate Fits(lines: seq<seq<string>>, carry: nat, indent: nat, wrap: int, width: string -> nat)
  {
    forall i, j :: 0 <= i < |lines| && (if i == 0 then 0 else indent + 1) <= j < |lines[i]| ==>
      Base(i, carry) + width(JoinWords(lines[i][..j])) + width(lines[i][j]) + 1 <= wrap
  }

  /** Every line after the first was opened because its first word failed the
      width test on the line before. */
  predicate Breaks(lines: seq<seq<string>>, carry: nat, indent: nat, wrap: int, width: string -> nat)
    requires Shaped(lines, indent)
  {
    forall i :: 1 <= i < |lines| ==>
      Base(i - 1, carry) + width(JoinWords(lines[i - 1])) + width(lines[i][indent]) + 1 > wrap
  }

  /** The words of the wrapped lines, placeholders removed. */
  function Words(lines: seq<seq<string>>, indent: nat): seq<string>
    requires Shaped(lines, indent)
  {
    if |lines| == 1 then lines[0]
    else Words(lines[..|lines| - 1], indent) + lines[|lines| - 1][indent..]
  }

  predicate Greedy(lines: seq<seq<string>>, carry: nat, indent: nat, wrap: int, width: string -> nat)
  {
    Shaped(lines, indent) && Fits(lines, carry, indent, wrap, width) && Breaks(lines, carry, indent, wrap, width)
  }

  lemma PlaceGreedy(lines: seq<seq<string>>, word: string, carry: nat, indent: nat, wrap: int, width: string -> nat)
    requires Greedy(lines, carry, indent, wrap, width)
    ensures Greedy(Place(lines, word, carry, indent, wrap, width), carry, indent, wrap, width)
    ensures Words(Place(lines, word, carry, indent, wrap, width), indent) == Words(lines, indent) + [word]
  {
    var n := |lines|;
    if Base(n - 1, carry) + width(JoinWords(lines[n - 1])) + width(word) + 1 > wrap {
      PlaceBreak(lines, word, carry, indent, wrap, width);
    } else {
      PlaceExtend(lines, word, carry, indent, wrap, width);
    }
  }

  /** A word that does not fit opens a new line. */
  lemma PlaceBreak(lines: seq<seq<string>>, word: string, carry: nat, indent: nat, wrap: int, width: string -> nat)
    requires Greedy(lines, carry, indent, wrap, width)
    requires Base(|lines| - 1, carry) + width(JoinWords(lines[|lines| - 1])) + width(word) + 1 > wrap
    ensures Greedy(Place(lines, word, carry, indent, wrap, width), carry, indent, wrap, width)
    ensures Words(Place(lines, word, carry, indent, wrap, width), indent) == Words(lines, indent) + [word]
  {
    var n := |lines|;
    var r := Place(lines, word, carry, indent, wrap, width);
    var newLine := Indent(indent) + [word];
    assert r == lines + [newLine];
    assert newLine[..indent] == Indent(indent);
    assert r[..n] == lines;
    forall i | 1 <= i < |r| ensures |r[i]| > indent && r[i][..indent] == Indent(indent) {
      if i < n { assert r[i] == lines[i]; }
    }
    assert Shaped(r, indent);
    forall i, j | 0 <= i < |r| && (if i == 0 then 0 else indent + 1) <= j < |r[i]|
      ensures Base(i, carry) + width(JoinWords(r[i][..j])) + width(r[i][j]) + 1 <= wrap
    {
      assert r[i] == lines[i];
    }
    forall i | 1 <= i < |r|
      ensures Base(i - 1, carry) + width(JoinWords(r[i - 1])) + width(r[i][indent]) + 1 > wrap
    {
      assert r[i - 1] == lines[i - 1];
      if i < n { assert r[i] == lines[i]; }
    }
    assert newLine[indent..] == [word];
  }

  /** A word that fits goes at the end of the last line. */
  lemma PlaceExtend(lines: seq<seq<string>>, word: string, carry: nat, indent: nat, wrap: int, width: string -> nat)
    requires Greedy(lines, carry, indent, wrap, width)
    requires Base(|lines| - 1, carry) + width(JoinWords(lines[|lines| - 1])) + width(word) + 1 <= wrap
    ensures Greedy(Place(lines, word, carry, indent, wrap, width), carry, indent, wrap, width)
    ensures Words(Place(lines, word, carry, indent, wrap, width), indent) == Words(lines, indent) + [word]
  {
    var n := |lines|;
    var r := lines[..n - 1] + [lines[n - 1] + [word]];
    assert Place(lines, word, carry, indent, wrap, width) == r;
    ExtendShaped(lines, word, indent);
    ExtendFits(lines, word, carry, indent, wrap, width);
    ExtendBreaks(lines, word, carry, indent, wrap, width);
    ExtendWords(lines, word, indent);
  }

  lemma ExtendShaped(lines: seq<seq<string>>, word: string, indent: nat)
    requires Shaped(lines, indent)
    ensures Shaped(lines[..|lines| - 1] + [lines[|lines| - 1] + [word]], indent)
  {
    var n := |lines|;
    var line := lines[n - 1];
    var r := lines[..n - 1] + [line + [word]];
    forall i | 1 <= i < |r| ensures |r[i]| > indent && r[i][..indent] == Indent(indent) {
      if i < n - 1 { assert r[i] == lines[i]; }
      else { assert (line + [word])[..indent] == line[..indent]; }
    }
  }

  lemma ExtendFits(lines: seq<seq<string>>, word: string, carry: nat, indent: nat, wrap: int, width: string -> nat)
    requires |lines| > 0 && Fits(lines, carry, indent, wrap, width)
    requires Base(|lines| - 1, carry) + width(JoinWords(lines[|lines| - 1])) + width(word) + 1 <= wrap
    ensures Fits(lines[..|lines| - 1] + [lines[|lines| - 1] + [word]], carry, indent, wrap, width)
  {
    var n := |lines|;
    var line := lines[n - 1];
    var r := lines[..n - 1] + [line + [word]];
    forall i, j | 0 <= i < |r| && (if i == 0 then 0 else indent + 1) <= j < |r[i]|
      ensures Base(i, carry) + width(JoinWords(r[i][..j])) + width(r[i][j]) + 1 <= wrap
    {
      if i < n - 1 {
        assert r[i] == lines[i];
      } else if j < |line| {
        assert r[i][..j] == line[..j] && r[i][j] == line[j];
      } else {
        assert r[i][..j] == line && r[i][j] == word;
      }
    }
  }

  lemma ExtendBreaks(lines: seq<seq<string>>, word: string, carry: nat, indent: nat, wrap: int, width: string -> nat)
    requires Shaped(lines, indent) && Breaks(lines, carry, indent, wrap, width)
    requires Shaped(lines[..|lines| - 1] + [lines[|lines| - 1] + [word]], indent)
    ensures Breaks(lines[..|lines| - 1] + [lines[|lines| - 1] + [word]], carry, indent, wrap, width)
  {
    var n := |lines|;
    var line := lines[n - 1];
    var r := lines[..n - 1] + [line + [word]];
    forall i | 1 <= i < |r|
      ensures Base(i - 1, carry) + width(JoinWords(r[i - 1])) + width(r[i][indent]) + 1 > wrap
    {
      assert r[i - 1] == lines[i - 1];
      if i < n - 1 { assert r[i] == lines[i]; } else { assert r[i][indent] == line[indent]; }
    }
  }

  lemma ExtendWords(lines: seq<seq<string>>, word: string, indent: nat)
    requires Shaped(lines, indent)
    requires Shaped(lines[..|lines| - 1] + [lines[|lines| - 1] + [word]], indent)
    ensures Words(lines[..|lines| - 1] + [lines[|lines| - 1] + [word]], indent) == Words(lines, indent) + [word]
  {
    var n := |lines|;
    var line := lines[n - 1];
    var r := lines[..n - 1] + [line + [word]];
    if n > 1 {
      assert r[..n - 1] == lines[..n - 1];
      assert (line + [word])[indent..] == line[indent..] + [word];
    }
  }

  lemma {:induction false} PlaceAllGreedy(lines: seq<seq<string>>, words: seq<string>, carry: nat, indent: nat,
                                          wrap: int, width: string -> nat)
    requires Greedy(lines, carry, indent, wrap, width)
    ensures Greedy(PlaceAll(lines, words, carry, indent, wrap, width), carry, indent, wrap, width)
    ensures Words(PlaceAll(lines, words, carry, indent, wrap, width), indent) == Words(lines, indent) + words
    decreases |words|
  {
    if |words| > 0 {
      var next := Place(lines, words[0], carry, indent, wrap, width);
      PlaceGreedy(lines, words[0], carry, indent, wrap, width);
      PlaceAllGreedy(next, words[1..], carry, indent, wrap, width);
      assert PlaceAll(lines, words, carry, indent, wrap, width) == PlaceAll(next, words[1..], carry, indent, wrap, width);
      assert Words(lines, indent) + [words[0]] + words[1..] == Words(lines, indent) + words;
    }
  }

  /** The greedy wrap of a source line keeps all its words, in order, every
      continuation line opens with the placeholders, every word that shares a line
      fitted when it was placed, and every break was forced. */
  lemma WrapWordsGreedy(words: seq<string>, carry: nat, indent: nat, wrap: int, width: string -> nat)
    ensures Greedy(WrapWords(words, carry, indent, wrap, width), carry, indent, wrap, width)
    ensures Words(WrapWords(words, carry, indent, wrap, width), indent) == words
  {
    PlaceAllGreedy([[]], words, carry, indent, wrap, width);
  }

  /** A continuation line renders as exactly `indent` spaces before its words. */
  lemma ContinuationIndent(lines: seq<seq<string>>, indent: nat, i: nat)
    requires Shaped(lines, indent) && 1 <= i < |lines|
    ensures JoinWords(lines[i]) == Spaces(indent) + JoinWords(lines[i][indent..])
  {
    assert lines[i] == Indent(indent) + lines[i][indent..];
    JoinIndent(indent, lines[i][indent..]);
  }

  lemma {:induction false} JoinIndent(k: nat, ws: seq<string>)
    requires |ws| > 0
    ensures JoinWords(Indent(k) + ws) == Spaces(k) + JoinWords(ws)
  {
    if k > 0 {
      JoinIndent(k - 1, ws);
      assert (Indent(k) + ws)[1..] == Indent(k - 1) + ws;
      assert Spaces(k) == " " + Spaces(k - 1);
    } else {
      assert Indent(0) + ws == ws;
    }
  }

  lemma {:induction false} JoinSnoc(xs: seq<string>, x: string, sep: string)
    requires |xs| > 0
    ensures Join(xs + [x], sep) == Join(xs, sep) + sep + x
  {
    if |xs| > 1 {
      JoinSnoc(xs[1..], x, sep);
      assert (xs + [x])[1..] == xs[1..] + [x];
    } else {
      assert (xs + [x])[1..] == [x];
    }
  }

  /** With the character count as visible width and no word too long for a
      continuation line, no wrapped line is wider than the wrap width; the first
      line counts the carried length as well. */
  lemma WrapWithin(words: seq<string>, carry: nat, indent: nat, wrap: int, width: string -> nat, i: nat)
    requires forall s :: width(s) == |s|
    requires forall k :: 0 <= k < |words| ==> indent + |words[k]| <= wrap
    requires i < |WrapWords(words, carry, indent, wrap, width)|
    ensures var line := WrapWords(words, carry, indent, wrap, width)[i];
            |line| > 0 ==> Base(i, carry) + |JoinWords(line)| <= wrap
  {
    var lines := WrapWords(words, carry, indent, wrap, width);
    WrapWordsGreedy(words, carry, indent, wrap, width);
    var line := lines[i];
    var n := |line|;
    if n > (if i == 0 then 0 else indent + 1) {
      LastFits(line, carry, i, wrap, width);
    } else if n > 0 {
      ContinuationIndent(lines, indent, i);
      assert line[indent..] == [line[indent]];
      WordsContain(lines, indent, i, indent);
      assert line[indent] in words;
    }
  }

  /** A line whose last word passed the width test fits. */
  lemma LastFits(line: seq<string>, carry: nat, i: nat, wrap: int, width: string -> nat)
    requires forall s :: width(s) == |s|
    requires |line| > 0
    requires Base(i, carry) + width(JoinWords(line[..|line| - 1])) + width(line[|line| - 1]) + 1 <= wrap
    ensures Base(i, carry) + |JoinWords(line)| <= wrap
  {
    var n := |line|;
    if n > 1 {
      JoinSnoc(line[..n - 1], line[n - 1], " ");
      assert line[..n - 1] + [line[n - 1]] == line;
    } else {
      assert line == [line[0]];
    }
  }

  /** A word on a wrapped line is one of the source line's words. */
  lemma {:induction false} WordsContain(lines: seq<seq<string>>, indent: nat, i: nat, j: nat)
    requires Shaped(lines, indent) && i < |lines| && (if i == 0 then 0 else indent) <= j < |lines[i]|
    ensures lines[i][j] in Words(lines, indent)
  {
    var n := |lines|;
    if n > 1 {
      if i < n - 1 {
        assert lines[..n - 1][i] == lines[i];
        WordsContain(lines[..n - 1], indent, i, j);
      } else {
        assert lines[i][indent..][j - indent] == lines[i][j];
      }
    }
  }

  // ---- rendering ----

  /** Without a wrap width, rendering is the plain concatenation of every fragment's
      pieces: splitting on newlines and joining again changes nothing. */
  lemma {:induction false} RenderUnwrapped(fs: seq<Fragment>, carry: nat, wrap: int, m: Measure)
    requires wrap <= 0
    ensures Render(fs, carry, wrap, m) == Join(AllText(fs), "")
  {
    if |fs| > 0 {
      var (s, carry') := RenderFragment(fs[0], carry, wrap, m);
      JoinSplit(Join(fs[0].text, ""), '\n');
      RenderUnwrapped(fs[1..], carry', wrap, m);
      ConcatAppend(fs[0].text, AllText(fs[1..]));
    }
  }

  /** With a wrap width, a fragment renders as its wrapped source lines joined by
      newlines; the carry it leaves is the visible width of its last line. */
  lemma RenderWrapped(f: Fragment, carry: nat, wrap: int, m: Measure)
    requires wrap > 0
    ensures var out := Join(WrapSourceLines(Split(Join(f.text, ""), '\n'), carry, f.wrapIndent, wrap, m), "\n");
            RenderFragment(f, carry, wrap, m).0 == out
            && RenderFragment(f, carry, wrap, m).1 == m.width(Split(out, '\n')[|Split(out, '\n')| - 1])
  {
    var out := Join(WrapSourceLines(Split(Join(f.text, ""), '\n'), carry, f.wrapIndent, wrap, m), "\n");
    JoinSplit(out, '\n');
  }

  /** Rendering from fragment i on is fragment i's rendering followed by the rest,
      carried on from it. */
  lemma RenderCons(fs: seq<Fragment>, i: nat, carry: nat, wrap: int, m: Measure)
    requires i < |fs|
    ensures Render(fs[i..], carry, wrap, m)
         == RenderFragment(fs[i], carry, wrap, m).0 + Render(fs[i + 1..], RenderFragment(fs[i], carry, wrap, m).1, wrap, m)
  {
    assert fs[i..][0] == fs[i];
    assert fs[i..][1..] == fs[i + 1..];
  }

  // ---- the loops of toString ----

  /** The fragment loop of `toString` (helpText.js:160-189): the fragments
      rendered in order, threading the carried line length. */
  method RenderAll(fs: seq<Fragment>, wrap: int, m: Measure) returns (s: string)
    ensures s == Render(fs, 0, wrap, m)
  {
    s := "";
    var lastLineLength := 0;
    var i := 0;
    while i < |fs|
      invariant 0 <= i <= |fs|
      invariant s + Render(fs[i..], lastLineLength, wrap, m) == Render(fs, 0, wrap, m)
    {
      var piece, carry' := RenderOne(fs[i], lastLineLength, wrap, m);
      RenderCons(fs, i, lastLineLength, wrap, m);
      assert s + (piece + Render(fs[i + 1..], carry', wrap, m)) == (s + piece) + Render(fs[i + 1..], carry', wrap, m);
      s := s + piece;
      lastLineLength := carry';
      i := i + 1;
    }
  }

  /** One fragment rendered (helpText.js:162-188), with the carry it leaves. */
  method RenderOne(t: Fragment, carry: nat, wrap: int, m: Measure) returns (piece: string, carry': nat)
    ensures piece == RenderFragment(t, carry, wrap, m).0 && carry' == RenderFragment(t, carry, wrap, m).1
  {
    var lines := Split(Join(t.text, ""), '\n');
    if wrap > 0 {
      var wrapped := WrapLines(lines, carry, t.wrapIndent, wrap, m);
      lines := Split(Join(wrapped, "\n"), '\n');
    }
    carry' := m.width(lines[|lines| - 1]);
    piece := Join(lines, "\n");
  }


  /** The word loop of one source line (helpText.js:165-182). */
  method WrapLine(l: string, carry: nat, indent: nat, wrap: int, width: string -> nat)
    returns (wrappedLines: seq<seq<string>>)
    ensures wrappedLines == WrapWords(Split(l, ' '), carry, indent, wrap, width)
  {
    var words := Split(l, ' ');
    wrappedLines := [[]];
    var k := 0;
    while k < |words|
      invariant 0 <= k <= |words|
      invariant |wrappedLines| > 0
      invariant PlaceAll(wrappedLines, words[k..], carry, indent, wrap, width)
             == WrapWords(words, carry, indent, wrap, width)
    {
      var w := words[k];
      var line := wrappedLines[|wrappedLines| - 1];
      var lineLength := width(Join(line, " "));
      if |wrappedLines| == 1 {
        lineLength := lineLength + carry;
      }
      var wordLength := width(w);
      if lineLength + wordLength + 1 > wrap {
        line := [];
        var i := 0;
        while i < indent
          invariant 0 <= i <= indent
          invariant line == Indent(i)
        {
          line := line + [""];
          i := i + 1;
        }
        wrappedLines := wrappedLines + [line + [w]];
      } else {
        wrappedLines := wrappedLines[..|wrappedLines| - 1] + [line + [w]];
      }
      assert words[k..][1..] == words[k + 1..];
      k := k + 1;
    }
  }

  /** The source-line loop of one fragment (helpText.js:164-185). */
  method WrapLines(ls: seq<string>, carry: nat, indent: nat, wrap: int, m: Measure) returns (out: seq<string>)
    ensures out == WrapSourceLines(ls, carry, indent, wrap, m)
  {
    out := [];
    var lastLineLength := carry;
    var k := 0;
    while k < |ls|
      invariant 0 <= k <= |ls|
      invariant out + WrapSourceLines(ls[k..], lastLineLength, indent, wrap, m)
             == WrapSourceLines(ls, carry, indent, wrap, m)
    {
      var wrappedLines := WrapLine(ls[k], lastLineLength, indent, wrap, m.width);
      var joined := MapSeq(JoinWords, wrappedLines);
      lastLineLength := m.linesWidth(joined);
      assert ls[k..][1..] == ls[k + 1..];
      out := out + [Join(joined, "\n")];
      k := k + 1;
    }
  }
}
