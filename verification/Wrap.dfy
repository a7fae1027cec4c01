/** Greedy line breaking of diagram labels. */
module Wrap {
  import opened Text

  type Word = string

  /** A group of words set on one line. */
  function Line(ws: seq<Word>): string {
    Join(" ", ws)
  }

  /** A line is acceptable when it fits the width or is one overlong word. */
  predicate Fits(width: int, ws: seq<Word>) {
    |ws| == 1 || |Line(ws)| <= width
  }

  function Flatten(lines: seq<seq<Word>>): seq<Word> {
    if lines == [] then [] else lines[0] + Flatten(lines[1..])
  }

  /** A way to set words on acceptable, non-empty lines, in order. */
  ghost predicate Setting(width: int, ws: seq<Word>, lines: seq<seq<Word>>) {
    Flatten(lines) == ws && forall l | l in lines :: l != [] && Fits(width, l)
  }

  // ----- the greedy setting -----------------------------------------------------

  /** Greedy lines when cur is already on the current line. */
  function Greedy(width: int, cur: seq<Word>, ws: seq<Word>): (lines: seq<seq<Word>>)
    ensures lines != []
    decreases |ws|
  {
    if ws == [] then [cur]
    else if |Line(cur + [ws[0]])| <= width then Greedy(width, cur + [ws[0]], ws[1..])
    else if cur == [] then Greedy(width, [ws[0]], ws[1..])
    else [cur] + Greedy(width, [ws[0]], ws[1..])
  }

  lemma FlattenCons(l: seq<Word>, lines: seq<seq<Word>>)
    ensures Flatten([l] + lines) == l + Flatten(lines)
  {
    assert ([l] + lines)[1..] == lines;
  }

  /** Greedy breaking preserves the words in order and makes only acceptable lines. */
  lemma {:induction false} GreedySets(width: int, cur: seq<Word>, ws: seq<Word>)
    requires cur == [] || Fits(width, cur)
    requires cur + ws != []
    ensures Setting(width, cur + ws, Greedy(width, cur, ws))
    decreases |ws|
  {
    if ws == [] {
      FlattenCons(cur, []);
      assert cur + ws == cur;
    } else {
      var next := cur + [ws[0]];
      assert cur + ws == next + ws[1..];
      if |Line(next)| <= width {
        GreedySets(width, next, ws[1..]);
      } else {
        GreedySets(width, [ws[0]], ws[1..]);
        assert [ws[0]] + ws[1..] == ws;
        if cur == [] {
          assert cur + ws == ws;
        } else {
          FlattenCons(cur, Greedy(width, [ws[0]], ws[1..]));
        }
      }
    }
  }

  // ----- optimality -----------------------------------------------------------------

  lemma {:induction false} PrefixIsNarrower(ws: seq<Word>, more: seq<Word>)
    ensures |Line(ws)| <= |Line(ws + more)|
  {
    if ws != [] {
      assert (ws + more)[1..] == ws[1..] + more;
      PrefixIsNarrower(ws[1..], more);
    }
  }

  lemma {:induction false} SuffixIsNarrower(pre: seq<Word>, ws: seq<Word>)
    ensures |Line(ws)| <= |Line(pre + ws)|
  {
    if pre == [] {
      assert pre + ws == ws;
    } else {
      assert (pre + ws)[1..] == pre[1..] + ws;
      SuffixIsNarrower(pre[1..], ws);
    }
  }

  /** A current line with fewer leading words never needs more lines... */
  lemma {:induction false} ShorterStart(width: int, pre: seq<Word>, cur: seq<Word>, ws: seq<Word>)
    requires cur != []
    ensures |Greedy(width, cur, ws)| <= |Greedy(width, pre + cur, ws)|
    decreases |ws|
  {
    if ws != [] {
      var w := [ws[0]];
      assert pre + cur + w == pre + (cur + w);
      SuffixIsNarrower(pre, cur + w);
      if |Line(pre + cur + w)| <= width {
        ShorterStart(width, pre, cur + w, ws[1..]);
      } else {
        LongerStart(width, cur, w, ws[1..]);
      }
    }
  }

  /** ...and one with more leading words needs at most one line more. */
  lemma {:induction false} LongerStart(width: int, pre: seq<Word>, cur: seq<Word>, ws: seq<Word>)
    requires cur != []
    ensures |Greedy(width, pre + cur, ws)| <= 1 + |Greedy(width, cur, ws)|
    decreases |ws|
  {
    if ws != [] {
      var w := [ws[0]];
      assert pre + cur + w == pre + (cur + w);
      SuffixIsNarrower(pre, cur + w);
      if |Line(pre + cur + w)| <= width {
        LongerStart(width, pre, cur + w, ws[1..]);
      } else if |Line(cur + w)| <= width {
        ShorterStart(width, cur, w, ws[1..]);
      }
    }
  }

  /** Greedy stays ahead of any setting whose current line holds at least greedy's words. */
  lemma {:induction false} StaysAhead(width: int, pre: seq<Word>, cur: seq<Word>, ws: seq<Word>, lines: seq<seq<Word>>)
    requires cur != [] && lines != [] && Setting(width, pre + cur + ws, lines)
    requires |pre + cur| <= |lines[0]|
    ensures |Greedy(width, cur, ws)| <= |lines|
    decreases |ws|
  {
    if ws != [] {
      var w, all := [ws[0]], pre + cur + ws;
      FlattenCons(lines[0], lines[1..]);
      assert lines == [lines[0]] + lines[1..];
      assert all[..|lines[0]|] == lines[0];
      if |pre + cur| < |lines[0]| {
        var k := |pre + cur| + 1;
        assert lines[0][..k] == all[..k] == pre + (cur + w);
        assert lines[0] == pre + (cur + w) + lines[0][k..];
        PrefixIsNarrower(pre + (cur + w), lines[0][k..]);
        SuffixIsNarrower(pre, cur + w);
        assert lines[0] in lines;
        assert pre + (cur + w) + ws[1..] == all;
        StaysAhead(width, pre, cur + w, ws[1..], lines);
      } else {
        assert Flatten(lines[1..]) == ws by {
          assert lines[0] == pre + cur;
          assert all[|lines[0]|..] == ws && (lines[0] + Flatten(lines[1..]))[|lines[0]|..] == Flatten(lines[1..]);
        }
        assert [] + w + ws[1..] == ws;
        assert lines[1] in lines;
        forall l | l in lines[1..] ensures l in lines {
        }
        StaysAhead(width, [], w, ws[1..], lines[1..]);
        LongerStart(width, cur, w, ws[1..]);
      }
    }
  }

  /** No other way to set the words on acceptable lines uses fewer lines. */
  lemma GreedyIsOptimal(width: int, ws: seq<Word>, lines: seq<seq<Word>>)
    requires ws != [] && Setting(width, ws, lines)
    ensures |Greedy(width, [], ws)| <= |lines|
  {
    assert lines[0] in lines;
    assert [] + [ws[0]] + ws[1..] == ws;
    assert [] + [ws[0]] == [ws[0]];
    StaysAhead(width, [], [ws[0]], ws[1..], lines);
  }

  // ----- the code ---------------------------------------------------------------------

  function Texts(lines: seq<seq<Word>>): seq<string> {
    seq(|lines|, i requires 0 <= i < |lines| => Line(lines[i]))
  }

  /** The lines of a label, paragraph by paragraph; a paragraph without words is one empty line. */
  function Wrapped(width: int, paras: seq<string>): seq<string> {
    if paras == [] then []
    else Texts(Greedy(width, [], Words(paras[0]))) + Wrapped(width, paras[1..])
  }

  predicate AllWords(ws: seq<Word>) {
    forall w | w in ws :: IsWord(w)
  }

  lemma {:induction false} LineEnds(ws: seq<Word>)
    requires AllWords(ws) && ws != []
    ensures Line(ws) != "" && Trimmed(Line(ws))
  {
    assert ws[0] in ws && ws[0][0] in ws[0];
    if |ws| > 1 {
      LineEnds(ws[1..]);
    } else {
      assert ws[0][|ws[0]| - 1] in ws[0];
    }
  }

  lemma {:induction false} LineSnoc(ws: seq<Word>, w: Word)
    ensures Line(ws + [w]) == if ws == [] then w else Line(ws) + " " + w
  {
    if ws != [] {
      assert (ws + [w])[1..] == ws[1..] + [w];
      LineSnoc(ws[1..], w);
    } else {
      assert ws + [w] == [w];
    }
  }

  /** f"{line} {word}".strip() is the line with the word added. */
  lemma TrialIsLine(cur: seq<Word>, w: Word)
    requires AllWords(cur) && IsWord(w)
    ensures Strip(Line(cur) + " " + w) == Line(cur + [w])
  {
    LineSnoc(cur, w);
    LineEnds(cur + [w]);
    TrimmedStripsToItself(Line(cur + [w]));
    if cur == [] {
      assert ("" + " " + w)[1..] == w;
      assert w[0] in w;
    }
  }

  lemma TextsCons(l: seq<Word>, lines: seq<seq<Word>>)
    ensures Texts([l] + lines) == [Line(l)] + Texts(lines)
  {
  }

  /** One flush: the finished line, then the lines that follow. */
  lemma FlushLine(out: seq<string>, width: int, cur: seq<Word>, w: Word, rest: seq<Word>)
    ensures out + [Line(cur)] + Texts(Greedy(width, [w], rest)) == out + Texts([cur] + Greedy(width, [w], rest))
  {
    TextsCons(cur, Greedy(width, [w], rest));
  }

  /** The loop over the words of one paragraph, appending its lines. */
  method WrapParagraph(out: seq<string>, words: seq<Word>, width: int) returns (r: seq<string>)
    requires AllWords(words)
    ensures r == out + Texts(Greedy(width, [], words))
  {
    r := out;
    var line := "";
    ghost var cur: seq<Word> := [];
    for i := 0 to |words|
      invariant AllWords(cur) && line == Line(cur)
      invariant r + Texts(Greedy(width, cur, words[i..])) == out + Texts(Greedy(width, [], words))
    {
      var word := words[i];
      var trial := Strip(line + " " + word);
      TrialIsLine(cur, word);
      assert words[i..][1..] == words[i + 1..];
      if |trial| <= width {
        line := trial;
        cur := cur + [word];
      } else {
        if cur != [] { LineEnds(cur); }
        if line != "" {
          FlushLine(r, width, cur, word, words[i + 1..]);
          r := r + [line];
        }
        line := word;
        cur := [word];
      }
    }
    assert words[|words|..] == [] && Texts([cur]) == [line];
    r := r + [line];
  }

  lemma {:induction false} WrappedSnoc(width: int, paras: seq<string>, p: string)
    ensures Wrapped(width, paras + [p]) == Wrapped(width, paras) + Texts(Greedy(width, [], Words(p)))
  {
    if paras == [] {
      assert paras + [p] == [p];
    } else {
      assert (paras + [p])[1..] == paras[1..] + [p];
      WrappedSnoc(width, paras[1..], p);
    }
  }

  method WrapText(text: string, width: int) returns (out: seq<string>)
    ensures out == Wrapped(width, SplitOn(text, '\n'))
  {
    hide Wrapped, Greedy, Texts, Words, SplitOn;
    out := [];
    var paras := SplitOn(text, '\n');
    NoParagraphs(width);
    for p := 0 to |paras|
      invariant out == Wrapped(width, paras[..p])
    {
      out := WrapParagraph(out, Words(paras[p]), width);
      WrappedSnoc(width, paras[..p], paras[p]);
      assert paras[..p + 1] == paras[..p] + [paras[p]];
    }
    assert paras[..|paras|] == paras;
  }

  lemma NoParagraphs(width: int)
    ensures Wrapped(width, []) == []
  {
  }

  // ----- the wrapped text ---------------------------------------------------------

  lemma {:induction false} WordsOfJoin(separator: char, parts: seq<string>)
    requires IsSpace(separator) && parts != []
    ensures Words(Join([separator], parts)) == WordsOfAll(parts)
  {
    if |parts| == 1 {
      assert WordsOfAll(parts[1..]) == [];
      assert Words(parts[0]) + [] == Words(parts[0]);
    } else {
      WordsAround(parts[0], separator, Join([separator], parts[1..]));
      WordsOfJoin(separator, parts[1..]);
    }
  }

  /** The words of several texts, one after the other. */
  function WordsOfAll(parts: seq<string>): seq<Word> {
    if parts == [] then [] else Words(parts[0]) + WordsOfAll(parts[1..])
  }

  lemma {:induction false} WordsOfAllConcat(a: seq<string>, b: seq<string>)
    ensures WordsOfAll(a + b) == WordsOfAll(a) + WordsOfAll(b)
  {
    if a == [] {
      assert a + b == b && [] + WordsOfAll(b) == WordsOfAll(b);
    } else {
      assert (a + b)[1..] == a[1..] + b;
      WordsOfAllConcat(a[1..], b);
      assert Words(a[0]) + (WordsOfAll(a[1..]) + WordsOfAll(b)) == WordsOfAll(a) + WordsOfAll(b);
    }
  }

  /** The words of a line are the words set on it. */
  lemma {:induction false} WordsOfLine(ws: seq<Word>)
    requires AllWords(ws)
    ensures Words(Line(ws)) == ws
  {
    if ws == [] {
      OneWord("");
    } else {
      assert ws[0] in ws && ws == [ws[0]] + ws[1..];
      OneWord(ws[0]);
      assert forall w | w in ws[1..] :: w in ws;
      if |ws| > 1 {
        WordsOfLine(ws[1..]);
        WordsAround(ws[0], ' ', Line(ws[1..]));
      }
    }
  }

  lemma {:induction false} WordsOfTexts(lines: seq<seq<Word>>)
    requires forall l | l in lines :: AllWords(l)
    ensures WordsOfAll(Texts(lines)) == Flatten(lines)
  {
    if lines != [] {
      assert lines[0] in lines && lines == [lines[0]] + lines[1..];
      assert forall l | l in lines[1..] :: l in lines;
      WordsOfLine(lines[0]);
      WordsOfTexts(lines[1..]);
      TextsCons(lines[0], lines[1..]);
      assert Texts(lines)[1..] == Texts(lines[1..]);
    }
  }

  lemma {:induction false} FlattenHolds(lines: seq<seq<Word>>, l: seq<Word>)
    requires l in lines && AllWords(Flatten(lines))
    ensures AllWords(l)
  {
    var rest := lines[1..];
    assert lines == [lines[0]] + rest;
    if l == lines[0] {
      assert forall w | w in l :: w in Flatten(lines);
    } else {
      assert forall w | w in Flatten(rest) :: w in Flatten(lines);
      FlattenHolds(rest, l);
    }
  }

  /** The lines of one paragraph hold its words in order, and each fits the width or is one word; a paragraph
      without words is one empty line. */
  lemma ParagraphLines(width: int, para: string)
    ensures var lines := Texts(Greedy(width, [], Words(para)));
            WordsOfAll(lines) == Words(para) &&
            (forall l | l in lines :: |l| <= width || IsWord(l) || Words(para) == []) &&
            (Words(para) == [] ==> lines == [""])
  {
    var ws := Words(para);
    var greedy := Greedy(width, [], ws);
    if ws == [] {
      assert greedy == [[]] && Texts(greedy) == [""];
      OneWord("");
      assert WordsOfAll([""]) == [];
    } else {
      assert [] + ws == ws;
      GreedySets(width, [], ws);
      forall l | l in greedy ensures AllWords(l) {
        FlattenHolds(greedy, l);
      }
      WordsOfTexts(greedy);
      forall l | l in Texts(greedy) ensures |l| <= width || IsWord(l) {
        var i :| 0 <= i < |Texts(greedy)| && Texts(greedy)[i] == l;
        assert greedy[i] in greedy && AllWords(greedy[i]);
        if |greedy[i]| == 1 { assert greedy[i][0] in greedy[i]; }
      }
    }
  }

  lemma {:induction false} ParagraphsKeepWords(width: int, paras: seq<string>)
    ensures WordsOfAll(Wrapped(width, paras)) == WordsOfAll(paras)
    ensures |Wrapped(width, paras)| >= |paras|
  {
    if paras != [] {
      ParagraphLines(width, paras[0]);
      ParagraphsKeepWords(width, paras[1..]);
      WordsOfAllConcat(Texts(Greedy(width, [], Words(paras[0]))), Wrapped(width, paras[1..]));
    }
  }

  /** Wrapping loses, adds and reorders no word of the text. */
  lemma WrapKeepsWords(width: int, text: string)
    ensures Words(Join("\n", Wrapped(width, SplitOn(text, '\n')))) == Words(text)
  {
    var paras := SplitOn(text, '\n');
    SplitJoins(text, '\n');
    ParagraphsKeepWords(width, paras);
    hide Wrapped, SplitOn, Words;
    WordsOfJoin('\n', paras);
    WordsOfJoin('\n', Wrapped(width, paras));
  }
}
