/**
 * The modprobe.d parser: comments, line continuations, directives. Spec* functions define the
 * parse by cutting the file into blocks; ParseConfReader is the program's one-pass loop over a
 * pending builder, proved to compute the same.
 */
module Conf {
  import opened Wrappers
  import opened Text

  datatype ConfDirective = ConfDirective(source: string, module_: string, kind: string, args: seq<string>, lineNum: nat)

  // ErrParse, with the line the malformed block starts on and how many fields it had.
  datatype ParseError = Malformed(source: string, lineNum: nat, fields: nat)

  datatype Parsed = Parsed(directives: seq<ConfDirective>, err: Option<ParseError>)

  // ---------------------------------------------------------------- one line

  function StripInlineComment(line: string): string {
    var i := IndexOf(line, '#');
    if i >= 0 then line[..i] else line
  }

  /** The line as the loop looks at it: comment and trailing blanks removed. */
  function Stripped(line: string): string {
    TrimRightBlank(StripInlineComment(line))
  }

  predicate EndsInBackslash(s: string) {
    s != "" && s[|s| - 1] == '\\'
  }

  /**
   * What a line means to the loop: nothing, a part of a block that continues on the next line
   * (its trailing backslash and the blanks before it removed), or the last line of a block.
   */
  datatype Line = Blank | Part(text: string) | Last(text: string) {
    /** What the line contributes to its block. */
    function Payload(): string {
      if Blank? then "" else text
    }

    function Tokens(): seq<string> {
      Fields(Payload())
    }
  }

  function Classify(line: string): Line {
    var s := Stripped(line);
    if TrimSpace(s) == "" then Blank
    else if EndsInBackslash(s) then Part(TrimRightBlank(s[..|s| - 1]))
    else Last(s)
  }

  function ClassifyAll(lines: seq<string>): (r: seq<Line>)
    ensures |r| == |lines|
  {
    seq(|lines|, i requires 0 <= i < |lines| => Classify(lines[i]))
  }

  function ParseConfDirectiveLine(line: string, source: string, lineNum: nat): Parsed {
    FromTokens(Fields(line), source, lineNum)
  }

  function FromTokens(fields: seq<string>, source: string, lineNum: nat): Parsed {
    if |fields| < 2 then Parsed([], Some(Malformed(source, lineNum, |fields|)))
    else Parsed([ConfDirective(source, fields[1], fields[0], fields[2..], lineNum)], None)
  }

  // ---------------------------------------------------------------- blocks

  function FirstLast(lines: seq<Line>): (t: nat)
    ensures t <= |lines|
    ensures t < |lines| ==> lines[t].Last?
    ensures forall j :: 0 <= j < t ==> !lines[j].Last?
  {
    if lines == [] || lines[0].Last? then 0 else 1 + FirstLast(lines[1..])
  }

  function AllTokens(lines: seq<Line>): seq<string> {
    if lines == [] then [] else lines[0].Tokens() + AllTokens(lines[1..])
  }

  /** Index of the first line that contributes to the block. */
  function FirstPayload(lines: seq<Line>): (i: nat)
    ensures i <= |lines|
    ensures i < |lines| ==> lines[i].Payload() != ""
    ensures forall j :: 0 <= j < i ==> lines[j].Payload() == ""
  {
    if lines == [] || lines[0].Payload() != "" then 0 else 1 + FirstPayload(lines[1..])
  }

  function Then(first: Parsed, rest: Parsed): Parsed {
    if first.err.Some? then first else Parsed(first.directives + rest.directives, rest.err)
  }

  /** The directive of one block; before is the number of lines in front of it. */
  function ParseBlock(block: seq<Line>, source: string, before: nat): Parsed {
    FromTokens(AllTokens(block), source, before + FirstPayload(block) + 1)
  }

  /** The parse of a file, block by block. */
  function SpecParse(lines: seq<Line>, source: string, before: nat): Parsed
    decreases |lines|
  {
    var t := FirstLast(lines);
    if t < |lines| then
      Then(ParseBlock(lines[..t + 1], source, before), SpecParse(lines[t + 1..], source, before + t + 1))
    else if AllTokens(lines) == [] then Parsed([], None)
    else ParseBlock(lines, source, before)
  }

  /** SpecParse, one block at a time. */
  lemma FirstBlock(lines: seq<Line>, source: string, before: nat)
    requires FirstLast(lines) < |lines|
    ensures var t := FirstLast(lines);
            SpecParse(lines, source, before)
            == Then(ParseBlock(lines[..t + 1], source, before), SpecParse(lines[t + 1..], source, before + t + 1))
  {
    hide FirstLast, AllTokens, ParseBlock, Then;
  }

  lemma OpenBlock(lines: seq<Line>, source: string, before: nat)
    requires FirstLast(lines) == |lines|
    ensures SpecParse(lines, source, before)
         == if AllTokens(lines) == [] then Parsed([], None) else ParseBlock(lines, source, before)
  {
    hide FirstLast, AllTokens, ParseBlock, Then;
  }

  // ---------------------------------------------------------------- the loop

  lemma {:induction false} AllTokensConcat(a: seq<Line>, b: seq<Line>)
    ensures AllTokens(a + b) == AllTokens(a) + AllTokens(b)
  {
    if a == [] {
      assert a + b == b;
    } else {
      assert (a + b)[1..] == a[1..] + b;
      AllTokensConcat(a[1..], b);
    }
  }

  lemma AllTokensSnoc(lines: seq<Line>, line: Line)
    ensures AllTokens(lines + [line]) == AllTokens(lines) + line.Tokens()
  {
    AllTokensConcat(lines, [line]);
    assert AllTokens([line]) == line.Tokens() + AllTokens([]);
  }

  lemma FirstPayloadIs(lines: seq<Line>, i: nat)
    requires i <= |lines| && (i < |lines| ==> lines[i].Payload() != "")
    requires forall j :: 0 <= j < i ==> lines[j].Payload() == ""
    ensures FirstPayload(lines) == i
  {
  }

  lemma FirstPayloadSnoc(lines: seq<Line>, line: Line)
    ensures FirstPayload(lines + [line])
         == if FirstPayload(lines) < |lines| || line.Payload() != "" then FirstPayload(lines) else |lines| + 1
  {
    FirstPayloadIs(lines + [line],
                   if FirstPayload(lines) < |lines| || line.Payload() != "" then FirstPayload(lines) else |lines| + 1);
  }

  lemma FirstLastIs(lines: seq<Line>, t: nat)
    requires t <= |lines| && (t < |lines| ==> lines[t].Last?)
    requires forall j :: 0 <= j < t ==> !lines[j].Last?
    ensures FirstLast(lines) == t
  {
  }

  /** The pending builder holds the open block: its tokens, and whether anything contributed yet. */
  ghost predicate Pending(open: seq<Line>, pending: string, pendingStart: nat, before: nat) {
    && Fields(pending) == AllTokens(open)
    && (pending == "" <==> FirstPayload(open) == |open|)
    && (pending != "" ==> pendingStart == before + FirstPayload(open) + 1)
  }

  lemma JoinedFields(a: string, b: string)
    ensures Fields(a + " " + b) == Fields(a) + Fields(b)
  {
    FieldsSplit(a, " " + b);
    FieldsOfSpaces(" ", b);
    assert a + (" " + b) == a + " " + b;
  }

  lemma PendingSkips(open: seq<Line>, pending: string, pendingStart: nat, before: nat)
    requires Pending(open, pending, pendingStart, before)
    ensures Pending(open + [Blank], pending, pendingStart, before)
  {
    AllTokensSnoc(open, Blank);
    FirstPayloadSnoc(open, Blank);
    FieldsOfNothing();
  }

  /** A continued line adds its payload to the builder. */
  lemma PendingGrows(open: seq<Line>, pending: string, pendingStart: nat, before: nat, text: string)
    requires Pending(open, pending, pendingStart, before)
    ensures Pending(open + [Part(text)],
                    if pending == "" then text else pending + " " + text,
                    if pending == "" then before + |open| + 1 else pendingStart, before)
  {
    AllTokensSnoc(open, Part(text));
    FirstPayloadSnoc(open, Part(text));
    if pending == "" {
      FieldsOfNothing();
    } else {
      JoinedFields(pending, text);
    }
  }

  /** The line that ends a block completes its tokens, and the block starts at its first payload. */
  lemma BlockEnds(open: seq<Line>, pending: string, pendingStart: nat, before: nat, text: string, joined: string)
    requires Pending(open, pending, pendingStart, before) && text != ""
    requires joined == if pending == "" then text else pending + " " + TrimLeftBlank(text)
    ensures Fields(joined) == AllTokens(open + [Last(text)])
    ensures (if pending == "" then before + |open| + 1 else pendingStart)
         == before + FirstPayload(open + [Last(text)]) + 1
  {
    AllTokensSnoc(open, Last(text));
    FirstPayloadSnoc(open, Last(text));
    if pending == "" {
      FieldsOfNothing();
    } else {
      JoinedFields(pending, TrimLeftBlank(text));
      FieldsTrimLeft(text);
    }
  }

  /** The block from begin to its last line e is the first one of the rest of the file. */
  lemma BlockStep(lines: seq<Line>, begin: nat, e: nat, source: string)
    requires begin <= e < |lines| && lines[e].Last?
    requires forall j :: begin <= j < e ==> !lines[j].Last?
    ensures SpecParse(lines[begin..], source, begin)
         == Then(ParseBlock(lines[begin..e] + [lines[e]], source, begin),
                 SpecParse(lines[e + 1..], source, e + 1))
  {
    hide FirstLast, SpecParse, ParseBlock, Then;
    var rest := lines[begin..];
    FirstLastIs(rest, e - begin);
    FirstBlock(rest, source, begin);
    assert rest[..e - begin + 1] == lines[begin..e] + [lines[e]];
    assert rest[e - begin + 1..] == lines[e + 1..];
  }

  /** What is left in the builder at end of file is the file's last, open block. */
  lemma EndOfFile(open: seq<Line>, pending: string, pendingStart: nat, before: nat, source: string)
    requires Pending(open, pending, pendingStart, before)
    requires forall j :: 0 <= j < |open| ==> !open[j].Last?
    ensures SpecParse(open, source, before)
         == if pending == "" || TrimSpace(pending) == "" then Parsed([], None)
            else ParseConfDirectiveLine(TrimSpace(pending), source, pendingStart)
  {
    hide Fields, AllTokens, FirstPayload, FirstLast, TrimSpace, AllSpace, SpecParse, FromTokens;
    FirstLastIs(open, |open|);
    OpenBlock(open, source, before);
    FieldsOfNothing();
    FieldsTrimSpace(pending);
    FieldsEmpty(pending);
    TrimSpaceEmpty(pending);
  }

  /**
   * The loop, seen from the block that is still open: begin is where it starts, i how far the
   * loop has read.
   */
  ghost predicate LoopInv(all: seq<Line>, source: string, begin: nat, i: nat,
                          directives: seq<ConfDirective>, pending: string, pendingStart: nat)
  {
    && begin <= i <= |all|
    && (forall j :: begin <= j < i ==> !all[j].Last?)
    && Pending(all[begin..i], pending, pendingStart, begin)
    && Then(Parsed(directives, None), SpecParse(all[begin..], source, begin)) == SpecParse(all, source, 0)
  }

  lemma NothingPending(before: nat)
    ensures Pending([], "", 0, before)
  {
  }

  lemma LoopStarts(all: seq<Line>, source: string)
    ensures LoopInv(all, source, 0, 0, [], "", 0)
  {
    assert all[0..] == all && all[0..0] == [];
    FieldsOfNothing();
  }

  lemma LoopSkips(all: seq<Line>, source: string, begin: nat, i: nat,
                  directives: seq<ConfDirective>, pending: string, pendingStart: nat)
    requires LoopInv(all, source, begin, i, directives, pending, pendingStart)
    requires i < |all| && all[i].Blank?
    ensures LoopInv(all, source, begin, i + 1, directives, pending, pendingStart)
  {
    hide Pending, SpecParse;
    PendingSkips(all[begin..i], pending, pendingStart, begin);
    assert all[begin..i + 1] == all[begin..i] + [Blank];
  }

  lemma LoopGrows(all: seq<Line>, source: string, begin: nat, i: nat, directives: seq<ConfDirective>,
                  pending: string, pendingStart: nat, newPending: string, newStart: nat)
    requires LoopInv(all, source, begin, i, directives, pending, pendingStart)
    requires i < |all| && all[i].Part? && Pending(all[begin..i] + [all[i]], newPending, newStart, begin)
    ensures LoopInv(all, source, begin, i + 1, directives, newPending, newStart)
  {
    hide Pending, SpecParse;
    assert all[begin..i + 1] == all[begin..i] + [all[i]];
  }

  lemma LoopPending(all: seq<Line>, source: string, begin: nat, i: nat,
                    directives: seq<ConfDirective>, pending: string, pendingStart: nat)
    requires LoopInv(all, source, begin, i, directives, pending, pendingStart)
    ensures begin <= i <= |all| && Pending(all[begin..i], pending, pendingStart, begin)
  {
  }

  lemma LoopFlushes(all: seq<Line>, source: string, begin: nat, i: nat,
                    directives: seq<ConfDirective>, pending: string, pendingStart: nat, parsed: Parsed)
    requires LoopInv(all, source, begin, i, directives, pending, pendingStart)
    requires i < |all| && all[i].Last? && all[i].text != ""
    requires parsed == if pending == "" then ParseConfDirectiveLine(all[i].text, source, i + 1)
                       else ParseConfDirectiveLine(pending + " " + TrimLeftBlank(all[i].text), source, pendingStart)
    ensures parsed.err.Some? ==> Parsed(directives, parsed.err) == SpecParse(all, source, 0)
    ensures parsed.err.None? ==> LoopInv(all, source, i + 1, i + 1, directives + parsed.directives, "", 0)
  {
    hide Fields, AllTokens, FirstPayload, SpecParse, TrimLeftBlank;
    var joined := if pending == "" then all[i].text else pending + " " + TrimLeftBlank(all[i].text);
    BlockEnds(all[begin..i], pending, pendingStart, begin, all[i].text, joined);
    assert all[i] == Last(all[i].text);
    BlockStep(all, begin, i, source);
    assert parsed == ParseBlock(all[begin..i] + [all[i]], source, begin);
    assert all[i + 1..i + 1] == [];
    NothingPending(i + 1);
  }

  lemma LoopEnds(all: seq<Line>, source: string, begin: nat,
                 directives: seq<ConfDirective>, pending: string, pendingStart: nat)
    requires LoopInv(all, source, begin, |all|, directives, pending, pendingStart)
    ensures SpecParse(all, source, 0)
         == Then(Parsed(directives, None),
                 if pending == "" || TrimSpace(pending) == "" then Parsed([], None)
                 else ParseConfDirectiveLine(TrimSpace(pending), source, pendingStart))
  {
    hide Fields, AllTokens, FirstPayload, SpecParse, TrimSpace;
    assert all[begin..|all|] == all[begin..];
    EndOfFile(all[begin..], pending, pendingStart, begin, source);
  }

  lemma LastIsNotEmpty(line: string)
    requires Classify(line).Last?
    ensures Classify(line).text != ""
  {
    TrimSpaceEmpty(Stripped(line));
  }

  /**
   * A continued line is written to the builder. Its fields stay the tokens of the open block, and
   * its start the first line of that block to contribute.
   */
  method Extend(pending: string, pendingStart: nat, content: string, lineNum: nat,
                ghost open: seq<Line>, ghost before: nat)
    returns (newPending: string, newStart: nat)
    requires Pending(open, pending, pendingStart, before) && lineNum == before + |open| + 1
    ensures Pending(open + [Part(content)], newPending, newStart, before)
  {
    PendingGrows(open, pending, pendingStart, before, content);
    hide Pending;
    newPending, newStart := pending, pendingStart;
    if |pending| == 0 {
      newStart := lineNum;
    } else {
      newPending := newPending + " ";
    }
    newPending := newPending + content;
    assert "" + content == content;
  }

  /** A line that is not continued ends the block the builder holds, or is a block of its own. */
  method Flush(pending: string, pendingStart: nat, stripped: string, lineNum: nat, source: string,
               ghost all: seq<Line>, ghost begin: nat, ghost directives: seq<ConfDirective>)
    returns (parsed: Parsed)
    requires 0 < lineNum <= |all| && all[lineNum - 1] == Last(stripped) && stripped != ""
    requires LoopInv(all, source, begin, lineNum - 1, directives, pending, pendingStart)
    ensures parsed.err.Some? ==> Parsed(directives, parsed.err) == SpecParse(all, source, 0)
    ensures parsed.err.None? ==> LoopInv(all, source, lineNum, lineNum, directives + parsed.directives, "", 0)
  {
    hide LoopInv, SpecParse, Fields, TrimLeftBlank;
    var joined, startLine := stripped, lineNum;
    if |pending| > 0 {
      joined, startLine := pending + " " + TrimLeftBlank(stripped), pendingStart;
    }
    parsed := ParseConfDirectiveLine(joined, source, startLine);
    LoopFlushes(all, source, begin, lineNum - 1, directives, pending, pendingStart, parsed);
  }

  /** End of file: what the builder still holds is the last directive. */
  method FlushAtEnd(pending: string, pendingStart: nat, source: string, before: seq<ConfDirective>,
                    ghost all: seq<Line>, ghost begin: nat)
    returns (directives: seq<ConfDirective>, err: Option<ParseError>)
    requires LoopInv(all, source, begin, |all|, before, pending, pendingStart)
    ensures Parsed(directives, err) == SpecParse(all, source, 0)
  {
    LoopEnds(all, source, begin, before, pending, pendingStart);
    hide LoopInv, SpecParse, TrimSpace;
    directives, err := before, None;
    if |pending| > 0 {
      var joined := TrimSpace(pending);
      if joined != "" {
        var parsed := ParseConfDirectiveLine(joined, source, pendingStart);
        if parsed.err.Some? {
          return directives, parsed.err;
        }
        directives := directives + parsed.directives;
      }
    }
  }

  /** ParseConfReader, on the lines the scanner delivers. */
  method ParseConfReader(lines: seq<string>, source: string)
    returns (directives: seq<ConfDirective>, err: Option<ParseError>)
    ensures Parsed(directives, err) == SpecParse(ClassifyAll(lines), source, 0)
  {
    hide LoopInv, SpecParse, Pending, TrimSpace, TrimRightBlank, StripInlineComment;
    directives, err := [], None;
    var pending := "";
    var pendingStart := 0;
    var lineNum := 0;
    ghost var all := ClassifyAll(lines);
    ghost var begin := 0;
    LoopStarts(all, source);
    while lineNum < |lines|
      invariant 0 <= lineNum <= |lines|
      invariant LoopInv(all, source, begin, lineNum, directives, pending, pendingStart)
    {
      LoopPending(all, source, begin, lineNum, directives, pending, pendingStart);
      var raw := lines[lineNum];
      lineNum := lineNum + 1;
      var stripped := Stripped(raw);
      ghost var line := Classify(raw);
      assert all[lineNum - 1] == line;
      if TrimSpace(stripped) == "" {
        LoopSkips(all, source, begin, lineNum - 1, directives, pending, pendingStart);
      } else if EndsInBackslash(stripped) {
        var newPending, newStart := Extend(pending, pendingStart, TrimRightBlank(stripped[..|stripped| - 1]), lineNum,
                                           all[begin..lineNum - 1], begin);
        LoopGrows(all, source, begin, lineNum - 1, directives, pending, pendingStart, newPending, newStart);
        pending, pendingStart := newPending, newStart;
      } else {
        LastIsNotEmpty(raw);
        var parsed := Flush(pending, pendingStart, stripped, lineNum, source, all, begin, directives);
        if parsed.err.Some? {
          return directives, parsed.err;
        }
        directives := directives + parsed.directives;
        pending, pendingStart := "", 0;
        begin := lineNum;
      }
    }
    directives, err := FlushAtEnd(pending, pendingStart, source, directives, all, begin);
  }
}
