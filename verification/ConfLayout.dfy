/**
 * The many ways one list of directives can be laid out in a modprobe.d file: indentation, gaps,
 * comments, blank lines anywhere, continuation breaks between any two words. Every layout parses
 * back to the directives it spells.
 */
module ConfLayout {
  import opened Text
  import opened Conf
  import opened ConfTheorems

  datatype Word = Word(text: string, gap: string)

  // Noise: spaces and a comment. Words: the words of a directive, with a continuation backslash or not.
  datatype LayoutLine =
    | Noise(spaces: string, comment: string)
    | Words(indent: string, words: seq<Word>, continued: bool, tail: string, comment: string)

  predicate ValidComment(c: string) {
    c == "" || c[0] == '#'
  }

  predicate ValidWord(w: Word) {
    IsWord(w.text) && '#' !in w.text && AllSpace(w.gap)
  }

  predicate ValidWords(ws: seq<Word>) {
    && (forall i :: 0 <= i < |ws| ==> ValidWord(ws[i]))
    && (forall i :: 0 <= i < |ws| - 1 ==> ws[i].gap != "")
  }

  predicate ValidLine(l: LayoutLine) {
    ValidComment(l.comment)
    && match l
       case Noise(spaces, _) => AllSpace(spaces)
       case Words(indent, words, continued, tail, _) =>
         && AllSpace(indent) && ValidWords(words) && AllBlank(tail)
         && (!continued ==> words != [] && !EndsInBackslash(words[|words| - 1].text))
  }

  function Spell(ws: seq<Word>): string {
    if ws == [] then "" else ws[0].text + ws[0].gap + Spell(ws[1..])
  }

  function Texts(ws: seq<Word>): seq<string> {
    if ws == [] then [] else [ws[0].text] + Texts(ws[1..])
  }

  function Body(l: LayoutLine): string {
    match l
    case Noise(spaces, _) => spaces
    case Words(indent, words, continued, tail, _) =>
      if continued then indent + Spell(words) + "\\" + tail else indent + Spell(words)
  }

  function RenderLine(l: LayoutLine): string {
    Body(l) + l.comment
  }

  function LineWords(l: LayoutLine): seq<string> {
    if l.Noise? then [] else Texts(l.words)
  }

  // ---------------------------------------------------------------- one line

  lemma {:induction false} SpellHasNoHash(ws: seq<Word>)
    requires ValidWords(ws)
    ensures '#' !in Spell(ws)
  {
    if ws != [] {
      assert ValidWord(ws[0]);
      assert forall i :: 0 <= i < |ws[1..]| ==> ws[1..][i] == ws[i + 1];
      SpellHasNoHash(ws[1..]);
    }
  }

  lemma BodyHasNoHash(l: LayoutLine)
    requires ValidLine(l)
    ensures '#' !in Body(l)
  {
    if l.Words? {
      SpellHasNoHash(l.words);
    }
  }

  lemma CommentStripped(l: LayoutLine)
    requires ValidLine(l)
    ensures StripInlineComment(RenderLine(l)) == Body(l)
  {
    BodyHasNoHash(l);
    IndexOfConcat(Body(l), l.comment, '#');
    assert (Body(l) + l.comment)[..|Body(l)|] == Body(l);
  }

  lemma {:induction false} TrimRightBlankIs(r: string, b: string)
    requires AllBlank(b) && (r == "" || !IsBlank(r[|r| - 1]))
    ensures TrimRightBlank(r + b) == r
  {
    if b == "" {
      assert r + b == r;
    } else {
      assert (r + b)[..|r + b| - 1] == r + b[..|b| - 1];
      TrimRightBlankIs(r, b[..|b| - 1]);
    }
  }

  /** The words of a line are what Fields finds in its spelling. */
  lemma {:induction false} FieldsOfSpelling(ws: seq<Word>)
    requires ValidWords(ws)
    ensures Fields(Spell(ws)) == Texts(ws)
  {
    if ws == [] {
    } else if |ws| == 1 {
      assert ValidWord(ws[0]);
      assert Spell(ws) == ws[0].text + ws[0].gap;
      assert Texts(ws) == [ws[0].text];
      FieldsTrailingSpaces(ws[0].text, ws[0].gap);
      FieldsOfWord(ws[0].text);
    } else {
      var rest := ws[1..];
      assert forall i :: 0 <= i < |rest| ==> rest[i] == ws[i + 1];
      assert ValidWord(ws[0]) && ws[0].gap != "";
      FieldsOfSpelling(rest);
      var spaced := ws[0].gap + Spell(rest);
      assert Spell(ws) == ws[0].text + spaced;
      FieldsSplit(ws[0].text, spaced);
      FieldsOfWord(ws[0].text);
      FieldsOfSpaces(ws[0].gap, Spell(rest));
    }
  }

  lemma NoiseIsBlank(l: LayoutLine)
    requires ValidLine(l) && l.Noise?
    ensures Classify(RenderLine(l)) == Blank
  {
    CommentStripped(l);
    TrimSpaceEmpty(TrimRightBlank(l.spaces));
  }

  lemma ContinuedIsPart(l: LayoutLine)
    requires ValidLine(l) && l.Words? && l.continued
    ensures Classify(RenderLine(l)).Part? && Classify(RenderLine(l)).Tokens() == LineWords(l)
  {
    hide Fields, Spell, Texts, StripInlineComment;
    CommentStripped(l);
    var inner := l.indent + Spell(l.words);
    var kept := inner + "\\";
    assert Body(l) == kept + l.tail;
    TrimRightBlankIs(kept, l.tail);
    hide TrimRightBlank;
    assert kept[|kept| - 1] == '\\' && kept[..|kept| - 1] == inner;
    TrimSpaceEmpty(kept);
    hide TrimSpace;
    FieldsTrimRight(inner);
    FieldsOfSpaces(l.indent, Spell(l.words));
    FieldsOfSpelling(l.words);
  }

  lemma {:induction false} SpellLast(ws: seq<Word>) returns (front: string)
    requires ws != []
    ensures Spell(ws) == front + ws[|ws| - 1].text + ws[|ws| - 1].gap
  {
    if |ws| > 1 {
      var f := SpellLast(ws[1..]);
      front := ws[0].text + ws[0].gap + f;
      assert Spell(ws) == ws[0].text + ws[0].gap + (f + ws[|ws| - 1].text + ws[|ws| - 1].gap);
    } else {
      front := "";
      assert Spell(ws) == ws[0].text + ws[0].gap + "";
    }
  }

  /** A line that ends in a word, give or take spaces, is neither blank nor continued. */
  lemma EndsInWord(front: string, text: string, gap: string)
    requires IsWord(text) && !EndsInBackslash(text) && AllSpace(gap)
    ensures var s := TrimRightBlank(front + text + gap);
            !AllSpace(s) && !EndsInBackslash(s)
  {
    var s := front + text + gap;
    var r := TrimRightBlank(s);
    var n := |front| + |text|;
    assert s[n - 1] == text[|text| - 1] && !IsSpace(s[n - 1]);
    assert forall k :: |r| <= k < |s| ==> s[k] == s[|r|..][k - |r|];
    assert |r| >= n;
    assert r[n - 1] == s[n - 1];
    if |r| > n {
      assert r[|r| - 1] == s[|r| - 1] == gap[|r| - 1 - n];
    }
  }

  lemma FinishedIsLast(l: LayoutLine)
    requires ValidLine(l) && l.Words? && !l.continued
    ensures Classify(RenderLine(l)).Last? && Classify(RenderLine(l)).Tokens() == LineWords(l)
  {
    hide Fields, Spell, Texts, StripInlineComment;
    CommentStripped(l);
    var inner := l.indent + Spell(l.words);
    var front := SpellLast(l.words);
    var last := l.words[|l.words| - 1];
    assert ValidWord(last);
    EndsInWord(l.indent + front, last.text, last.gap);
    assert inner == l.indent + front + last.text + last.gap;
    hide TrimRightBlank;
    TrimSpaceEmpty(TrimRightBlank(inner));
    hide TrimSpace;
    FieldsTrimRight(inner);
    FieldsOfSpaces(l.indent, Spell(l.words));
    FieldsOfSpelling(l.words);
  }

  // ---------------------------------------------------------------- the file

  // opening: noise and continued lines; closing: the line that ends the block.
  datatype Block = Block(opening: seq<LayoutLine>, closing: LayoutLine)

  // trailer: what follows the last finished block; its words, if any, are a directive cut off by
  // a continuation at end of file.
  datatype File = File(blocks: seq<Block>, trailer: seq<LayoutLine>)

  predicate Open(l: LayoutLine) {
    ValidLine(l) && (l.Words? ==> l.continued)
  }

  predicate ValidBlock(b: Block) {
    && (forall i :: 0 <= i < |b.opening| ==> Open(b.opening[i]))
    && ValidLine(b.closing) && b.closing.Words? && !b.closing.continued
  }

  function BlockLines(b: Block): seq<LayoutLine> {
    b.opening + [b.closing]
  }

  function WordsOf(lines: seq<LayoutLine>): seq<string> {
    if lines == [] then [] else LineWords(lines[0]) + WordsOf(lines[1..])
  }

  predicate ValidFile(f: File)
    decreases |f.blocks|
  {
    if f.blocks == [] then
      && (forall i :: 0 <= i < |f.trailer| ==> Open(f.trailer[i]))
      && (WordsOf(f.trailer) == [] || |WordsOf(f.trailer)| >= 2)
    else
      && ValidBlock(f.blocks[0]) && |WordsOf(BlockLines(f.blocks[0]))| >= 2
      && ValidFile(File(f.blocks[1..], f.trailer))
  }

  /** The directives a layout spells, as word lists. */
  function Spelled(f: File): seq<seq<string>>
    decreases |f.blocks|
  {
    if f.blocks == [] then (if WordsOf(f.trailer) == [] then [] else [WordsOf(f.trailer)])
    else [WordsOf(BlockLines(f.blocks[0]))] + Spelled(File(f.blocks[1..], f.trailer))
  }

  function RenderLines(lines: seq<LayoutLine>): (r: seq<string>)
    ensures |r| == |lines|
  {
    seq(|lines|, i requires 0 <= i < |lines| => RenderLine(lines[i]))
  }

  function Render(f: File): seq<string>
    decreases |f.blocks|
  {
    if f.blocks == [] then RenderLines(f.trailer)
    else RenderLines(BlockLines(f.blocks[0])) + Render(File(f.blocks[1..], f.trailer))
  }

  lemma LineParses(l: LayoutLine)
    requires ValidLine(l)
    ensures Classify(RenderLine(l)).Tokens() == LineWords(l)
    ensures Classify(RenderLine(l)).Last? <==> l.Words? && !l.continued
  {
    hide Classify, RenderLine, LineWords;
    if l.Noise? {
      NoiseIsBlank(l);
      BlankTokens(l);
    } else if l.continued {
      ContinuedIsPart(l);
    } else {
      FinishedIsLast(l);
    }
  }

  lemma BlankTokens(l: LayoutLine)
    requires l.Noise?
    ensures Blank.Tokens() == LineWords(l)
  {
  }

  lemma {:induction false} LinesParse(lines: seq<LayoutLine>)
    requires forall i :: 0 <= i < |lines| ==> ValidLine(lines[i])
    ensures AllTokens(ClassifyAll(RenderLines(lines))) == WordsOf(lines)
    ensures forall i :: 0 <= i < |lines| ==>
              (ClassifyAll(RenderLines(lines))[i].Last? <==> lines[i].Words? && !lines[i].continued)
  {
    hide Classify, ValidLine, RenderLine, LineWords, Line.Tokens;
    if lines != [] {
      LineParses(lines[0]);
      LinesParse(lines[1..]);
      var all := ClassifyAll(RenderLines(lines));
      var rest := ClassifyAll(RenderLines(lines[1..]));
      assert all[1..] == rest;
      assert forall i :: 1 <= i < |lines| ==> lines[i] == lines[1..][i - 1] && all[i] == rest[i - 1];
    }
  }

  lemma ClassifyConcat(a: seq<string>, b: seq<string>)
    ensures ClassifyAll(a + b) == ClassifyAll(a) + ClassifyAll(b)
  {
    hide Classify;
  }

  /** Two parses found the same directives, source and line numbers aside. */
  function Contents(ds: seq<ConfDirective>): (r: seq<seq<string>>)
    ensures |r| == |ds|
  {
    seq(|ds|, i requires 0 <= i < |ds| => DirectiveTokens(ds[i]))
  }

  lemma BlockParses(b: Block, source: string, before: nat)
    requires ValidBlock(b) && |WordsOf(BlockLines(b))| >= 2
    ensures var lines := ClassifyAll(RenderLines(BlockLines(b)));
            && FirstLast(lines) == |lines| - 1
            && ParseBlock(lines, source, before).err.None?
            && Contents(ParseBlock(lines, source, before).directives) == [WordsOf(BlockLines(b))]
  {
    hide Classify, RenderLine, ValidLine, WordsOf, AllTokens, LineWords;
    var ls := BlockLines(b);
    assert forall i :: 0 <= i < |b.opening| ==> Open(ls[i]);
    LinesParse(ls);
    var lines := ClassifyAll(RenderLines(ls));
    FirstLastIs(lines, |lines| - 1);
    BlockTokens(lines, source, before);
  }

  lemma RestParses(first: seq<Line>, rest: seq<Line>, source: string, before: nat)
    requires first != [] && FirstLast(first) == |first| - 1
    ensures SpecParse(first + rest, source, before)
         == Then(ParseBlock(first, source, before), SpecParse(rest, source, before + |first|))
  {
    hide ParseBlock, AllTokens;
    FirstLastIs(first + rest, |first| - 1);
    assert (first + rest)[..|first|] == first && (first + rest)[|first|..] == rest;
  }

  lemma TrailerParses(lines: seq<LayoutLine>, source: string, before: nat)
    requires forall i :: 0 <= i < |lines| ==> Open(lines[i])
    requires WordsOf(lines) == [] || |WordsOf(lines)| >= 2
    ensures var r := SpecParse(ClassifyAll(RenderLines(lines)), source, before);
            r.err.None? && Contents(r.directives) == if WordsOf(lines) == [] then [] else [WordsOf(lines)]
  {
    hide Classify, RenderLine, ValidLine, WordsOf, LineWords;
    assert forall i :: 0 <= i < |lines| ==> Open(lines[i]) && ValidLine(lines[i]);
    LinesParse(lines);
    var all := ClassifyAll(RenderLines(lines));
    FirstLastIs(all, |all|);
    hide AllTokens;
    if WordsOf(lines) != [] {
      BlockTokens(all, source, before);
    }
  }

  /**
   * Layout round trip: whatever the layout, parsing the rendered lines succeeds and gives back the
   * directives that were spelled, in order.
   */
  lemma {:induction false} LayoutRoundTrip(f: File, source: string, before: nat)
    requires ValidFile(f)
    ensures SpecParse(ClassifyAll(Render(f)), source, before).err.None?
    ensures Contents(SpecParse(ClassifyAll(Render(f)), source, before).directives) == Spelled(f)
    decreases |f.blocks|
  {
    hide Classify, RenderLine, WordsOf, AllTokens, SpecParse, BlockLines, ValidBlock;
    if f.blocks == [] {
      TrailerParses(f.trailer, source, before);
    } else {
      var rest := File(f.blocks[1..], f.trailer);
      var first := RenderLines(BlockLines(f.blocks[0]));
      ClassifyConcat(first, Render(rest));
      BlockParses(f.blocks[0], source, before);
      RestParses(ClassifyAll(first), ClassifyAll(Render(rest)), source, before);
      LayoutRoundTrip(rest, source, before + |first|);
      ContentsConcat(ParseBlock(ClassifyAll(first), source, before).directives,
                     SpecParse(ClassifyAll(Render(rest)), source, before + |first|).directives);
    }
  }

  lemma ContentsConcat(a: seq<ConfDirective>, b: seq<ConfDirective>)
    ensures Contents(a + b) == Contents(a) + Contents(b)
  {
  }
}
