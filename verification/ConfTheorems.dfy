/** What the modprobe.d parser conserves, and where its line numbers and errors point. */
module ConfTheorems {
  import opened Wrappers
  import opened Text
  import opened Conf

  function DirectiveTokens(d: ConfDirective): seq<string> {
    [d.kind, d.module_] + d.args
  }

  function Flatten(ds: seq<ConfDirective>): seq<string> {
    if ds == [] then [] else DirectiveTokens(ds[0]) + Flatten(ds[1..])
  }

  lemma FlattenNothing()
    ensures Flatten([]) == []
  {
  }

  lemma {:induction false} FlattenConcat(a: seq<ConfDirective>, b: seq<ConfDirective>)
    ensures Flatten(a + b) == Flatten(a) + Flatten(b)
  {
    if a == [] {
      assert a + b == b;
    } else {
      assert (a + b)[1..] == a[1..] + b;
      FlattenConcat(a[1..], b);
    }
  }

  /** What a line contributes, in terms of the raw line: comment and continuation backslash removed. */
  lemma LineTokens(line: string)
    ensures Classify(line).Part? ==>
              && EndsInBackslash(Stripped(line))
              && Classify(line).Tokens() == Fields(Stripped(line)[..|Stripped(line)| - 1])
    ensures !Classify(line).Part? ==> Classify(line).Tokens() == Fields(StripInlineComment(line))
  {
    hide Fields, TrimSpace, StripInlineComment, TrimRightBlank;
    var s := Stripped(line);
    FieldsTrimRight(StripInlineComment(line));
    TrimSpaceEmpty(s);
    FieldsEmpty(s);
    FieldsEmpty("");
    if Classify(line).Part? {
      FieldsTrimRight(s[..|s| - 1]);
    }
  }

  lemma BlockTokens(block: seq<Line>, source: string, before: nat)
    requires ParseBlock(block, source, before).err.None?
    ensures |ParseBlock(block, source, before).directives| == 1
    ensures DirectiveTokens(ParseBlock(block, source, before).directives[0]) == AllTokens(block)
    ensures Flatten(ParseBlock(block, source, before).directives) == AllTokens(block)
  {
    hide AllTokens;
    var d := ParseBlock(block, source, before).directives;
    assert d[1..] == [];
    assert Flatten(d) == DirectiveTokens(d[0]);
  }

  /** A successful parse loses no token, adds none and keeps their order. */
  lemma {:induction false} TokensConserved(lines: seq<Line>, source: string, before: nat)
    requires SpecParse(lines, source, before).err.None?
    ensures Flatten(SpecParse(lines, source, before).directives) == AllTokens(lines)
    decreases |lines|
  {
    hide AllTokens, FirstLast, Flatten, SpecParse, ParseBlock;
    var t := FirstLast(lines);
    if t < |lines| {
      FirstBlock(lines, source, before);
      var block, rest := lines[..t + 1], lines[t + 1..];
      TokensConserved(rest, source, before + t + 1);
      BlockTokens(block, source, before);
      AllTokensConcat(block, rest);
      assert lines == block + rest;
      FlattenConcat(ParseBlock(block, source, before).directives,
                    SpecParse(rest, source, before + t + 1).directives);
    } else {
      OpenBlock(lines, source, before);
      if AllTokens(lines) != [] {
        BlockTokens(lines, source, before);
      } else {
        assert Flatten([]) == [] by { FlattenNothing(); }
      }
    }
  }

  /**
   * Directive k starts at line lineNum: that line contributes, and everything in front of it was
   * consumed by the directives before. Line numbers strictly increase.
   */
  ghost predicate WellNumbered(ds: seq<ConfDirective>, k: nat, lines: seq<Line>, before: nat)
    requires k < |ds|
  {
    && before < ds[k].lineNum <= before + |lines|
    && lines[ds[k].lineNum - before - 1].Payload() != ""
    && AllTokens(lines[..ds[k].lineNum - before - 1]) == Flatten(ds[..k])
    && (k > 0 ==> ds[k - 1].lineNum < ds[k].lineNum)
  }

  lemma {:induction false} NoPayloadNoTokens(lines: seq<Line>)
    requires forall j :: 0 <= j < |lines| ==> lines[j].Payload() == ""
    ensures AllTokens(lines) == []
  {
    if lines != [] {
      NoPayloadNoTokens(lines[1..]);
      FieldsOfNothing();
    }
  }

  lemma BlockNumbered(block: seq<Line>, source: string, before: nat)
    requires ParseBlock(block, source, before).err.None?
    ensures |ParseBlock(block, source, before).directives| == 1
    ensures WellNumbered(ParseBlock(block, source, before).directives, 0, block, before)
  {
    BlockTokens(block, source, before);
    var i := FirstPayload(block);
    if i == |block| {
      NoPayloadNoTokens(block);
    }
    NoPayloadNoTokens(block[..i]);
    assert ParseBlock(block, source, before).directives[..0] == [];
  }

  lemma NumberedInLonger(ds: seq<ConfDirective>, more: seq<ConfDirective>, k: nat, block: seq<Line>,
      rest: seq<Line>, before: nat)
    requires k < |ds| && WellNumbered(ds, k, block, before)
    ensures WellNumbered(ds + more, k, block + rest, before)
  {
    hide AllTokens, Flatten, Line.Payload;
    var n := ds[k].lineNum - before - 1;
    assert (ds + more)[..k] == ds[..k];
    assert (block + rest)[..n] == block[..n];
    assert (block + rest)[n] == block[n];
  }

  lemma NumberedBehind(d: ConfDirective, more: seq<ConfDirective>, k: nat, block: seq<Line>, rest: seq<Line>,
      before: nat)
    requires k < |more| && WellNumbered(more, k, rest, before + |block|)
    requires d.lineNum <= before + |block| && Flatten([d]) == AllTokens(block)
    ensures WellNumbered([d] + more, k + 1, block + rest, before)
  {
    hide AllTokens, Flatten, Line.Payload;
    var n := more[k].lineNum - (before + |block|) - 1;
    var ds, lines := [d] + more, block + rest;
    assert ds[k + 1] == more[k];
    TokensBehind(d, more, k, block, rest, n);
    assert lines[|block| + n] == rest[n];
    assert ds[k].lineNum < ds[k + 1].lineNum by {
      if k > 0 { assert ds[k] == more[k - 1]; }
    }
  }

  lemma TokensBehind(d: ConfDirective, more: seq<ConfDirective>, k: nat, block: seq<Line>, rest: seq<Line>, n: nat)
    requires k <= |more| && n <= |rest|
    requires Flatten([d]) == AllTokens(block) && Flatten(more[..k]) == AllTokens(rest[..n])
    ensures AllTokens((block + rest)[..|block| + n]) == Flatten(([d] + more)[..k + 1])
  {
    hide AllTokens, Flatten;
    PrefixTokens(d, more[..k], block, rest[..n]);
    assert ([d] + more)[..k + 1] == [d] + more[..k];
    assert (block + rest)[..|block| + n] == block + rest[..n];
  }

  lemma PrefixTokens(d: ConfDirective, ds: seq<ConfDirective>, block: seq<Line>, rest: seq<Line>)
    requires Flatten([d]) == AllTokens(block) && Flatten(ds) == AllTokens(rest)
    ensures AllTokens(block + rest) == Flatten([d] + ds)
  {
    AllTokensConcat(block, rest);
    FlattenConcat([d], ds);
  }

  lemma {:induction false} LineNumbers(lines: seq<Line>, source: string, before: nat, k: nat)
    requires k < |SpecParse(lines, source, before).directives|
    ensures WellNumbered(SpecParse(lines, source, before).directives, k, lines, before)
    decreases |lines|
  {
    hide WellNumbered, AllTokens, FirstPayload, Flatten, SpecParse, FirstLast;
    var t := FirstLast(lines);
    if t < |lines| {
      FirstBlock(lines, source, before);
      var block, rest := lines[..t + 1], lines[t + 1..];
      assert lines == block + rest;
      var first := ParseBlock(block, source, before);
      var more := SpecParse(rest, source, before + t + 1).directives;
      BlockNumbered(block, source, before);
      if k == 0 {
        NumberedInLonger(first.directives, more, 0, block, rest, before);
      } else {
        LineNumbers(rest, source, before + t + 1, k - 1);
        BlockTokens(block, source, before);
        InBlock(first.directives[0], block, before);
        NumberedBehind(first.directives[0], more, k - 1, block, rest, before);
        assert first.directives == [first.directives[0]];
      }
    } else {
      OpenBlock(lines, source, before);
      BlockNumbered(lines, source, before);
    }
  }

  lemma InBlock(d: ConfDirective, block: seq<Line>, before: nat)
    requires WellNumbered([d], 0, block, before)
    ensures d.lineNum <= before + |block|
  {
  }

  /** Every directive names the file it was parsed from. */
  lemma {:induction false} SourceIsFile(lines: seq<Line>, source: string, before: nat, d: ConfDirective)
    requires d in SpecParse(lines, source, before).directives
    ensures d.source == source
    decreases |lines|
  {
    hide AllTokens, FirstPayload, FirstLast, SpecParse;
    var t := FirstLast(lines);
    if t < |lines| {
      FirstBlock(lines, source, before);
      if d !in ParseBlock(lines[..t + 1], source, before).directives {
        SourceIsFile(lines[t + 1..], source, before + t + 1, d);
      }
    } else {
      OpenBlock(lines, source, before);
    }
  }

  /** The line d is attributed to holds its kind as first token, or only exotic spaces. */
  ghost predicate KindHere(d: ConfDirective, lines: seq<Line>, before: nat) {
    && before < d.lineNum <= before + |lines|
    && var here := lines[d.lineNum - before - 1];
       if AllSpace(here.Payload()) then here.Payload() != ""
       else here.Tokens() != [] && here.Tokens()[0] == d.kind
  }

  /**
   * The line a directive is attributed to holds its kind as its first token, unless that line's
   * payload is made of spaces other than the blank and the tab.
   */
  lemma {:induction false} LineNumIsFirstTokenLine(lines: seq<Line>, source: string, before: nat, k: nat)
    requires k < |SpecParse(lines, source, before).directives|
    ensures KindHere(SpecParse(lines, source, before).directives[k], lines, before)
    decreases |lines|
  {
    hide AllTokens, FirstPayload, KindHere, SpecParse, FirstLast;
    var t := FirstLast(lines);
    if t < |lines| {
      FirstBlock(lines, source, before);
      var block, rest := lines[..t + 1], lines[t + 1..];
      var first := ParseBlock(block, source, before);
      var more := SpecParse(rest, source, before + t + 1);
      KindIsFirstToken(block, source, before);
      if k == 0 {
        KindInLonger(first.directives[0], block, lines, 0, before);
      } else {
        LineNumIsFirstTokenLine(rest, source, before + t + 1, k - 1);
        assert SpecParse(lines, source, before).directives[k] == more.directives[k - 1];
        KindInLonger(more.directives[k - 1], rest, lines, t + 1, before);
      }
    } else {
      OpenBlock(lines, source, before);
      KindIsFirstToken(lines, source, before);
    }
  }

  lemma KindInLonger(d: ConfDirective, part: seq<Line>, lines: seq<Line>, skipped: nat, before: nat)
    requires skipped + |part| <= |lines| && part == lines[skipped..skipped + |part|]
    requires KindHere(d, part, before + skipped)
    ensures KindHere(d, lines, before)
  {
    hide Fields, AllSpace;
    assert lines[d.lineNum - before - 1] == part[d.lineNum - before - skipped - 1];
  }

  lemma KindIsFirstToken(block: seq<Line>, source: string, before: nat)
    requires ParseBlock(block, source, before).err.None?
    ensures |ParseBlock(block, source, before).directives| == 1
    ensures KindHere(ParseBlock(block, source, before).directives[0], block, before)
  {
    BlockTokens(block, source, before);
    hide Fields, AllTokens, FirstPayload, AllSpace;
    var i := FirstPayload(block);
    if i == |block| {
      NoPayloadNoTokens(block);
    }
    FieldsEmpty(block[i].Payload());
    TokensFrom(block, i);
  }

  lemma TokensFrom(block: seq<Line>, i: nat)
    requires i < |block| && forall j :: 0 <= j < i ==> block[j].Payload() == ""
    ensures AllTokens(block) == block[i].Tokens() + AllTokens(block[i + 1..])
  {
    hide Line.Tokens, Line.Payload, AllTokens;
    NoPayloadNoTokens(block[..i]);
    assert block == block[..i] + block[i..];
    AllTokensConcat(block[..i], block[i..]);
    FirstTokens(block[i..]);
    assert block[i..][1..] == block[i + 1..];
  }

  lemma FirstTokens(lines: seq<Line>)
    requires lines != []
    ensures AllTokens(lines) == lines[0].Tokens() + AllTokens(lines[1..])
  {
  }

  // ---------------------------------------------------------------- the joined block

  // A block and the number of lines in front of it.
  datatype Span = Span(begin: nat, block: seq<Line>)

  /** Block k, counting from 0: it ends at its first Last line, or with the file. */
  function BlockOf(lines: seq<Line>, k: nat): (r: Span)
    ensures r.begin + |r.block| <= |lines| && r.block == lines[r.begin..r.begin + |r.block|]
    decreases |lines|
  {
    var t := FirstLast(lines);
    if t == |lines| then Span(0, lines)
    else if k == 0 then Span(0, lines[..t + 1])
    else
      var r := BlockOf(lines[t + 1..], k - 1);
      Span(t + 1 + r.begin, r.block)
  }

  /** Index of the first line that is not blank: where a reader sees the block begin. */
  function FirstShown(lines: seq<Line>): (i: nat)
    ensures i <= |lines|
    ensures i < |lines| ==> !lines[i].Blank?
    ensures forall j :: 0 <= j < i ==> lines[j].Blank?
  {
    if lines == [] || !lines[0].Blank? then 0 else 1 + FirstShown(lines[1..])
  }

  /** The directive of a block names the first line of it to contribute. */
  ghost predicate StartsAt(d: ConfDirective, span: Span, before: nat) {
    AllTokens(span.block) != [] && d.lineNum == before + span.begin + FirstPayload(span.block) + 1
  }

  lemma {:induction false} BlockLine(lines: seq<Line>, source: string, before: nat, k: nat)
    requires k < |SpecParse(lines, source, before).directives|
    ensures StartsAt(SpecParse(lines, source, before).directives[k], BlockOf(lines, k), before)
    decreases |lines|
  {
    hide AllTokens, FirstPayload, SpecParse, FirstLast, BlockOf;
    BlockUnfolds(lines, k);
    var t := FirstLast(lines);
    if t == |lines| {
      OpenBlock(lines, source, before);
    } else {
      FirstBlock(lines, source, before);
      if k > 0 {
        BlockLine(lines[t + 1..], source, before + t + 1, k - 1);
      }
    }
  }

  lemma BlockUnfolds(lines: seq<Line>, k: nat)
    ensures var t := FirstLast(lines);
            BlockOf(lines, k)
            == if t == |lines| then Span(0, lines)
               else if k == 0 then Span(0, lines[..t + 1])
               else BlockOf(lines[t + 1..], k - 1).(begin := t + 1 + BlockOf(lines[t + 1..], k - 1).begin)
  {
    hide FirstLast;
  }

  /**
   * The field's comment says LineNum points at the first line of the joined block. With c the first
   * line of directive k's block that is not blank, that holds exactly when line c contributes
   * something: when it is not a continuation backslash alone.
   */
  lemma LineNumIsBlockStart(lines: seq<Line>, source: string, before: nat, k: nat)
    requires k < |SpecParse(lines, source, before).directives|
    ensures var span := BlockOf(lines, k);
            var c := span.begin + FirstShown(span.block);
            && c < |lines|
            && (SpecParse(lines, source, before).directives[k].lineNum == before + c + 1 <==> lines[c].Payload() != "")
  {
    hide SpecParse, BlockOf, Line.Payload, AllTokens, FirstPayload, FirstShown;
    BlockLine(lines, source, before, k);
    var span := BlockOf(lines, k);
    FirstShownIsStart(span.block);
    assert lines[span.begin + FirstShown(span.block)] == span.block[FirstShown(span.block)];
  }

  lemma FirstShownIsStart(block: seq<Line>)
    requires AllTokens(block) != []
    ensures FirstShown(block) < |block|
    ensures FirstShown(block) == FirstPayload(block) <==> block[FirstShown(block)].Payload() != ""
  {
    hide FirstShown, FirstPayload, Fields, AllTokens;
    if FirstPayload(block) == |block| {
      NoPayloadNoTokens(block);
    }
  }

  /** A backslash alone, then a directive: the joined block begins on line 1, the directive says line 2. */
  lemma LoneBackslash()
    ensures Classify("\\") == Part("")
    ensures var ds := SpecParse([Part(""), Last("install m")], "s", 0);
            ds.err.None? && |ds.directives| == 1 && ds.directives[0].lineNum == 2
  {
    hide Fields, FirstLast, SpecParse, FirstPayload, Classify;
    NothingBeforeBackslash("\\");
    var lines := [Part(""), Last("install m")];
    FirstLastIs(lines, 1);
    FirstPayloadIs(lines, 1);
    assert lines[..2] == lines && lines[2..] == [];
    TwoFields();
    FieldsOfNothing();
    FirstBlock(lines, "s", 0);
    FirstLastIs([], 0);
    OpenBlock([], "s", 2);
    AllTokensOfTwo(lines[0], lines[1]);
  }

  lemma NothingBeforeBackslash(raw: string)
    requires raw == ['\\']
    ensures Classify(raw) == Part("")
  {
    hide TrimSpace, IndexOf;
    assert Stripped(raw) == raw by {
      assert IndexOf(raw, '#') < 0;
    }
    assert !AllSpace(raw) by {
      assert !IsSpace(raw[0]);
    }
    hide IsSpace, AllSpace;
    TrimSpaceEmpty(raw);
    assert raw[..0] == "";
  }

  // ---------------------------------------------------------------- escaped backslashes

  /** The number of backslashes at the end of s. */
  function BackslashRun(s: string): (n: nat)
    ensures n <= |s| && (n > 0 <==> EndsInBackslash(s))
  {
    if EndsInBackslash(s) then 1 + BackslashRun(s[..|s| - 1]) else 0
  }

  /** An unescaped backslash stands at the end: each pair before it is an escaped one. */
  predicate UnescapedAtEnd(s: string) {
    BackslashRun(s) % 2 == 1
  }

  /** A line is continued exactly as documented unless it ends in a positive even number of backslashes. */
  lemma ContinuedWhenUnescaped(line: string)
    ensures (Classify(line).Part? <==> UnescapedAtEnd(Stripped(line)))
       <==> BackslashRun(Stripped(line)) == 0 || BackslashRun(Stripped(line)) % 2 == 1
  {
    hide Stripped, TrimSpace, BackslashRun;
    var s := Stripped(line);
    TrimSpaceEmpty(s);
    if BackslashRun(s) > 0 {
      assert !IsSpace(s[|s| - 1]);
    }
  }

  /** Two backslashes: the second is escaped, yet the line is continued, and the first stays. */
  lemma TwoBackslashes()
    ensures !UnescapedAtEnd("\\\\") && Classify("\\\\") == Part("\\")
  {
    hide TrimSpace, IndexOf;
    var raw := "\\\\";
    assert raw[0] == '\\' && raw[1] == '\\';
    assert Stripped(raw) == raw by {
      assert IndexOf(raw, '#') < 0;
    }
    TrimSpaceEmpty(raw);
    assert raw[..1] == "\\" && "\\"[..0] == "";
    assert TrimRightBlank("\\") == "\\";
  }

  /**
   * What may stand behind the backslash of a continued line: a blank, a tab, a comment, another
   * backslash, and nothing else.
   */
  lemma BehindBackslash(w: string, c: char)
    requires IsWord(w) && '#' !in w
    ensures Classify(w + "\\" + [c]).Part? <==> c == ' ' || c == '\t' || c == '#' || c == '\\'
  {
    hide TrimSpace, TrimRightBlank, IndexOf, IsSpace;
    var line := w + "\\" + [c];
    TrimSpaceEmpty(Stripped(line));
    StrippedTail(w + "\\", c);
    assert Stripped(line)[0] == w[0];
  }

  lemma StrippedTail(front: string, c: char)
    requires front != "" && '#' !in front && front[|front| - 1] == '\\'
    ensures Stripped(front + [c]) == if c == ' ' || c == '\t' || c == '#' then front else front + [c]
  {
    hide IndexOf;
    IndexOfConcat(front, [c], '#');
    assert IndexOf([c], '#') == if c == '#' then 0 else -1 by {
      assert IndexOf([c], '#') >= 0 ==> [c][0] == '#';
      assert c == '#' ==> [c][0] in [c];
    }
    assert (front + [c])[..|front|] == front;
    assert TrimRightBlank(front) == front;
  }

  // ---------------------------------------------------------------- exotic spaces

  /** A vertical tab and a backslash open a block without contributing a token. */
  lemma LineNumWithoutToken()
    ensures Classify("\U{0B}\\") == Part("\U{0B}")
    ensures var ds := SpecParse([Part("\U{0B}"), Last("install m")], "s", 0);
            ds.err.None? && |ds.directives| == 1 && ds.directives[0].lineNum == 1
    ensures Part("\U{0B}").Tokens() == []
  {
    OpensWithoutToken();
    TwoLineBlock();
  }

  lemma OpensWithoutToken()
    ensures Classify("\U{0B}\\") == Part("\U{0B}")
  {
    hide TrimSpace, IndexOf;
    var raw := "\U{0B}\\";
    assert raw[0] == '\U{0B}' && raw[1] == '\\';
    assert Stripped(raw) == raw by {
      assert IndexOf(raw, '#') < 0;
    }
    assert !AllSpace(raw) by {
      assert !IsSpace(raw[1]);
    }
    hide IsSpace, AllSpace;
    TrimSpaceEmpty(raw);
    assert raw[..1] == "\U{0B}";
    assert TrimRightBlank("\U{0B}") == "\U{0B}";
  }

  lemma TwoLineBlock()
    ensures var ds := SpecParse([Part("\U{0B}"), Last("install m")], "s", 0);
            ds.err.None? && |ds.directives| == 1 && ds.directives[0].lineNum == 1
    ensures Part("\U{0B}").Tokens() == []
  {
    hide Fields, FirstLast, SpecParse, FirstPayload;
    FieldsEmpty("\U{0B}");
    var lines := [Part("\U{0B}"), Last("install m")];
    FirstLastIs(lines, 1);
    FirstPayloadIs(lines, 0);
    assert lines[..2] == lines && lines[2..] == [];
    TwoFields();
    FirstBlock(lines, "s", 0);
    FirstLastIs([], 0);
    OpenBlock([], "s", 2);
    AllTokensOfTwo(lines[0], lines[1]);
  }

  lemma AllTokensOfTwo(a: Line, b: Line)
    ensures AllTokens([a, b]) == a.Tokens() + b.Tokens()
    ensures AllTokens([]) == []
  {
    hide Line.Tokens;
    assert [a, b][1..] == [b] && [b][1..] == [];
    assert AllTokens([b]) == b.Tokens() + AllTokens([]);
  }

  lemma TwoFields()
    ensures Fields("install m") == ["install", "m"]
  {
    hide Fields;
    assert "install m" == Join(["install", "m"]);
    FieldsOfJoin(["install", "m"]);
  }

  /**
   * The parse stopped at the block lines[b..e]: what was returned is exactly the parse of the lines
   * before it, the block has fewer than two tokens, and the error names its first contributing line.
   */
  ghost predicate StopsAt(lines: seq<Line>, source: string, before: nat, b: nat, e: nat) {
    && b < e <= |lines|
    && (e < |lines| ==> lines[e - 1].Last?)
    && PrefixKept(lines, source, before, b)
    && FailsIn(lines, source, before, b, e)
  }

  ghost predicate PrefixKept(lines: seq<Line>, source: string, before: nat, b: nat)
    requires b <= |lines|
  {
    SpecParse(lines[..b], source, before) == Parsed(SpecParse(lines, source, before).directives, None)
  }

  ghost predicate FailsIn(lines: seq<Line>, source: string, before: nat, b: nat, e: nat)
    requires b < e <= |lines|
  {
    BlockFails(SpecParse(lines, source, before).err, lines[b..e], source, before + b)
  }

  ghost predicate BlockFails(err: Option<ParseError>, block: seq<Line>, source: string, before: nat) {
    && |AllTokens(block)| < 2
    && err == Some(Malformed(source, before + FirstPayload(block) + 1, |AllTokens(block)|))
  }

  lemma {:induction false} MalformedBlock(lines: seq<Line>, source: string, before: nat) returns (b: nat, e: nat)
    requires SpecParse(lines, source, before).err.Some?
    ensures StopsAt(lines, source, before, b, e)
    decreases |lines|
  {
    hide AllTokens, FirstPayload, StopsAt, ParseBlock, SpecParse, FirstLast;
    var t := FirstLast(lines);
    if t < |lines| && ParseBlock(lines[..t + 1], source, before).err.None? {
      FirstBlock(lines, source, before);
      var b1, e1 := MalformedBlock(lines[t + 1..], source, before + t + 1);
      b, e := t + 1 + b1, t + 1 + e1;
      StopsLater(lines, source, before, t, b1, e1);
    } else {
      b, e := 0, if t < |lines| then t + 1 else |lines|;
      StopsFirst(lines, source, before, e);
    }
  }

  lemma FirstBlockFails(lines: seq<Line>, source: string, before: nat, e: nat)
    requires SpecParse(lines, source, before).err.Some?
    requires FirstLast(lines) < |lines| ==> ParseBlock(lines[..FirstLast(lines) + 1], source, before).err.Some?
    requires e == if FirstLast(lines) < |lines| then FirstLast(lines) + 1 else |lines|
    ensures 0 < e <= |lines|
    ensures SpecParse(lines, source, before) == ParseBlock(lines[..e], source, before)
    ensures ParseBlock(lines[..e], source, before).err.Some?
    ensures SpecParse([], source, before) == Parsed([], None)
  {
    assert AllTokens([]) == [];
    hide AllTokens, ParseBlock;
    assert lines[..|lines|] == lines;
  }

  lemma StopsFirst(lines: seq<Line>, source: string, before: nat, e: nat)
    requires SpecParse(lines, source, before).err.Some?
    requires FirstLast(lines) < |lines| ==> ParseBlock(lines[..FirstLast(lines) + 1], source, before).err.Some?
    requires e == if FirstLast(lines) < |lines| then FirstLast(lines) + 1 else |lines|
    ensures StopsAt(lines, source, before, 0, e)
  {
    hide AllTokens, FirstPayload, SpecParse;
    FirstBlockFails(lines, source, before, e);
    assert lines[..0] == [] && lines[0..e] == lines[..e];
  }

  lemma StopsLater(lines: seq<Line>, source: string, before: nat, t: nat, b1: nat, e1: nat)
    requires t < |lines| && t == FirstLast(lines) && ParseBlock(lines[..t + 1], source, before).err.None?
    requires StopsAt(lines[t + 1..], source, before + t + 1, b1, e1)
    ensures StopsAt(lines, source, before, t + 1 + b1, t + 1 + e1)
  {
    hide PrefixKept, FailsIn, FirstLast, ParseBlock;
    PrefixKeptLater(lines, source, before, t, b1);
    FailsLater(lines, source, before, t, b1, e1);
  }

  lemma PrefixKeptLater(lines: seq<Line>, source: string, before: nat, t: nat, b1: nat)
    requires t < |lines| && t == FirstLast(lines) && ParseBlock(lines[..t + 1], source, before).err.None?
    requires b1 <= |lines| - t - 1 && PrefixKept(lines[t + 1..], source, before + t + 1, b1)
    ensures PrefixKept(lines, source, before, t + 1 + b1)
  {
    hide ParseBlock, SpecParse, FirstLast;
    PrefixParse(lines, source, before, t, b1);
    FirstBlock(lines, source, before);
  }

  lemma FailsLater(lines: seq<Line>, source: string, before: nat, t: nat, b1: nat, e1: nat)
    requires t < |lines| && t == FirstLast(lines) && ParseBlock(lines[..t + 1], source, before).err.None?
    requires b1 < e1 <= |lines| - t - 1 && FailsIn(lines[t + 1..], source, before + t + 1, b1, e1)
    ensures FailsIn(lines, source, before, t + 1 + b1, t + 1 + e1)
  {
    hide FirstLast, ParseBlock, BlockFails, SpecParse;
    SameError(lines, source, before, t);
    BlockInside(lines, t + 1, b1, e1);
  }

  /** A first block that parses leaves the error to what follows. */
  lemma SameError(lines: seq<Line>, source: string, before: nat, t: nat)
    requires t < |lines| && t == FirstLast(lines) && ParseBlock(lines[..t + 1], source, before).err.None?
    ensures SpecParse(lines, source, before).err == SpecParse(lines[t + 1..], source, before + t + 1).err
  {
    hide FirstLast, ParseBlock, SpecParse;
    FirstBlock(lines, source, before);
  }

  lemma BlockInside(lines: seq<Line>, n: nat, b: nat, e: nat)
    requires n <= |lines| && b <= e <= |lines| - n
    ensures lines[n..][b..e] == lines[n + b..n + e]
  {
  }

  lemma PrefixParse(lines: seq<Line>, source: string, before: nat, t: nat, b1: nat)
    requires t < |lines| && t == FirstLast(lines) && b1 <= |lines| - t - 1
    ensures SpecParse(lines[..t + 1 + b1], source, before)
         == Then(ParseBlock(lines[..t + 1], source, before), SpecParse(lines[t + 1..][..b1], source, before + t + 1))
  {
    hide ParseBlock, SpecParse, FirstLast, Then;
    var shorter := lines[..t + 1 + b1];
    assert forall j :: 0 <= j < t ==> shorter[j] == lines[j];
    FirstLastIs(shorter, t);
    FirstBlock(shorter, source, before);
    assert shorter[..t + 1] == lines[..t + 1];
    assert shorter[t + 1..] == lines[t + 1..][..b1];
  }
}
