/**
 * Line-bounded redaction, as the redactor's package comment promises it: each line on its own. The
 * redactor works on the whole text; this module says exactly when the two give the same.
 */
module RedactLines {
  import opened Wrappers
  import opened Redactor = Redact

  /** Redact every line by itself. */
  function LineByLine(s: string): string
    decreases |s|
  {
    var n := LineEnd(s, 0);
    if n == |s| then Redact(s) else Redact(s[..n]) + "\n" + LineByLine(s[n + 1..])
  }

  /** The matches of a text, left to right. */
  function Matches(s: string): seq<string>
    decreases |s|
  {
    match FirstMatch(s)
    case None => []
    case Some(f) => [f.matched] + Matches(f.rest)
  }

  /** A match on one line, or one whose separator and value are already the equals sign and the marker. */
  predicate Harmless(m: string) {
    '\n' !in m || m[FirstSep(m)..] == "=" + MARKER
  }

  /** The marked matches are those redaction leaves as they are. */
  lemma MarkedIsUnchanged(m: string)
    requires FirstSep(m) < |m|
    ensures ReplaceMatch(m) == m <==> m[FirstSep(m)..] == "=" + MARKER
  {
    hide FirstSep, ReplaceMatch;
    ReplaceMatchIs(m);
    SameTail(m, FirstSep(m), "=", MARKER);
  }

  lemma SameTail(m: string, p: nat, x: string, y: string)
    requires p <= |m|
    ensures m[..p] + x + y == m <==> m[p..] == x + y
  {
    assert m[..p] + x + y == m[..p] + (x + y);
    assert m == m[..p] + m[p..];
    SamePrefix(m[..p], m[p..], x + y);
  }

  predicate AllHarmless(s: string) {
    forall m :: m in Matches(s) ==> Harmless(m)
  }

  // ---------------------------------------------------------------- lines

  predicate Unbroken(s: string) {
    '\n' !in s
  }

  /** Start of the line that s[p] is on, or that ends at p. */
  function LineStart(s: string, p: nat): (m: nat)
    requires p <= |s|
    ensures m <= p && (m == 0 || s[m - 1] == '\n')
    ensures forall j :: m <= j < p ==> s[j] != '\n'
  {
    if p == 0 || s[p - 1] == '\n' then p else LineStart(s, p - 1)
  }

  lemma LineEndIs(s: string, j: nat, e: nat)
    requires j <= e <= |s| && (e < |s| ==> s[e] == '\n')
    requires forall k :: j <= k < e ==> s[k] != '\n'
    ensures LineEnd(s, j) == e
  {
  }

  /** The line at the front, split off. */
  lemma FrontLine(s: string, n: nat)
    requires n <= |s| && Unbroken(s[..n]) && (n < |s| ==> s[n] == '\n')
    ensures LineByLine(s) == if n == |s| then Redact(s[..n]) else Redact(s[..n]) + "\n" + LineByLine(s[n + 1..])
  {
    hide Redact;
    assert forall k :: 0 <= k < n ==> s[k] == s[..n][k];
    LineEndIs(s, 0, n);
    assert s[..|s|] == s;
  }

  function Breaks(s: string): nat {
    if s == "" then 0 else (if s[0] == '\n' then 1 else 0) + Breaks(s[1..])
  }

  lemma {:induction false} BreaksConcat(a: string, b: string)
    ensures Breaks(a + b) == Breaks(a) + Breaks(b)
  {
    if a == "" {
      assert a + b == b;
    } else {
      assert (a + b)[1..] == a[1..] + b;
      BreaksConcat(a[1..], b);
    }
  }

  lemma {:induction false} NoBreaks(s: string)
    ensures Breaks(s) == 0 <==> Unbroken(s)
  {
    if s != "" {
      NoBreaks(s[1..]);
      assert s == [s[0]] + s[1..];
    }
  }

  /** Two texts cut at the end of their first line agree when their parts do. */
  lemma SameFront(a: string, b: string, x: string, y: string)
    requires Unbroken(a) && Unbroken(b)
    requires (x == "" || x[0] == '\n') && (y == "" || y[0] == '\n')
    ensures a + x == b + y <==> a == b && x == y
  {
    if |a| < |b| {
      ShorterFront(a, b, x, y);
    } else if |b| < |a| {
      ShorterFront(b, a, y, x);
    } else if a + x == b + y {
      assert a == (a + x)[..|a|] && b == (b + y)[..|b|];
      SamePrefix(a, x, y);
    }
  }

  lemma ShorterFront(a: string, b: string, x: string, y: string)
    requires |a| < |b| && Unbroken(b) && (x == "" || x[0] == '\n')
    ensures a + x != b + y
  {
    assert b[|a|] in b && (b + y)[|a|] == b[|a|];
    if x != "" {
      assert (a + x)[|a|] == x[0];
    }
  }

  lemma SamePrefix(a: string, x: string, y: string)
    ensures a + x == a + y <==> x == y
  {
    if a + x == a + y {
      assert x == (a + x)[|a|..] && y == (a + y)[|a|..];
    }
  }

  // ---------------------------------------------------------------- matches of a line and of the text

  /** A match at the start of a front part is a match, perhaps a longer one, of the whole. */
  lemma PartMatches(t: string, c: nat)
    requires c <= |t| && MatchEnd(t[..c]).Some?
    ensures MatchEnd(t).Some?
  {
    hide IsKeyword, ValueEnd, FirstSep;
    var u := t[..c];
    var p := FirstSep(u);
    assert u[p] == t[p] && u[..p] == t[..p];
    SameHead(u, t, p);
    ValueFound(u, p + 1);
    var j :| p + 1 <= j < |u| && u[j] != '\n';
    assert t[j] == u[j];
    ValueFound(t, p + 1);
  }

  /** Before a separator nothing matches. */
  lemma NoSepNoMatch(s: string)
    requires FirstSep(s) == |s|
    ensures MatchEnd(s).None?
  {
    hide FirstSep, IsKeyword, ValueEnd, TrimReSpace;
  }

  lemma NothingFound(s: string)
    requires forall j :: 0 <= j <= |s| ==> MatchEnd(s[j..]).None?
    ensures Redact(s) == s && Matches(s) == []
  {
    hide MatchEnd;
    assert FindStart(s) == |s|;
    hide FindStart;
    Kept(s);
  }

  /** No line that ends before m holds a match. */
  ghost predicate PlainBefore(s: string, m: nat)
    requires m <= |s|
  {
    forall j: nat, b: nat :: j <= b < m ==> MatchEnd(s[j..b]).None?
  }

  lemma PlainLine(s: string, m: nat, n: nat)
    requires m <= |s| && PlainBefore(s, m) && n < m
    ensures Redact(s[..n]) == s[..n]
  {
    hide MatchEnd, Redact, Matches;
    forall j | 0 <= j <= n ensures MatchEnd(s[..n][j..]).None? {
      assert s[..n][j..] == s[j..n];
    }
    NothingFound(s[..n]);
  }

  /** Lines without a match come out of the line by line redaction as they are. */
  lemma {:induction false} PlainLines(s: string, m: nat)
    requires m <= |s| && (m == 0 || s[m - 1] == '\n') && PlainBefore(s, m)
    ensures LineByLine(s) == s[..m] + LineByLine(s[m..])
    decreases |s|
  {
    hide MatchEnd, Redact, LineByLine;
    if m == 0 {
      assert s[0..] == s && s[..0] == "";
    } else {
      var n := LineEnd(s, 0);
      var rest := s[n + 1..];
      PlainLine(s, m, n);
      assert Unbroken(s[..n]);
      FrontLine(s, n);
      forall j: nat, b: nat | j <= b < m - n - 1 ensures MatchEnd(rest[j..b]).None? {
        assert rest[j..b] == s[n + 1 + j..n + 1 + b];
      }
      PlainLines(rest, m - n - 1);
      CutFront(s, n, m, LineByLine(s[m..]));
    }
  }

  lemma CutFront(s: string, n: nat, m: nat, x: string)
    requires n < m <= |s| && s[n] == '\n'
    ensures s[n + 1..][m - n - 1..] == s[m..]
    ensures s[..n] + "\n" + (s[n + 1..][..m - n - 1] + x) == s[..m] + x
  {
    assert s[..m] == s[..n] + "\n" + s[n + 1..][..m - n - 1];
  }

  /** A line feed in front is kept, and moves every match by one. */
  lemma LeadingBreak(r: string)
    ensures Redact("\n" + r) == "\n" + Redact(r)
    ensures Matches("\n" + r) == Matches(r)
  {
    hide MatchEnd, Redact, Matches, FindStart;
    var s := "\n" + r;
    BreakMovesStart(r);
    if FindStart(r) == |r| {
      Kept(s);
      Kept(r);
      NoMatches(s);
      NoMatches(r);
    } else {
      BreakMovesMatch(r, s);
    }
  }

  lemma BreakMovesStart(r: string)
    ensures FindStart("\n" + r) == 1 + FindStart(r)
  {
    hide MatchEnd;
    var s := "\n" + r;
    BreakStartsNothing(s);
    assert s[1..] == r;
  }

  lemma BreakMovesMatch(r: string, s: string)
    requires s == "\n" + r && FindStart(r) < |r| && FindStart(s) == 1 + FindStart(r)
    ensures Redact(s) == "\n" + Redact(r)
    ensures Matches(s) == Matches(r)
  {
    hide MatchEnd, ReplaceMatch, Redact, Matches, FindStart, FirstSep;
    var i := FindStart(r);
    var e := i + MatchEnd(r[i..]).value;
    Shifted(r, s, i, e);
    var front, m, rest := r[..i], r[i..e], r[e..];
    Cut(r, i, e, Found(front, m, rest));
    Cut(s, 1 + i, 1 + e, Found("\n" + front, m, rest));
    Reassociate("\n", front, ReplaceMatch(m), Redact(rest));
  }

  /** The text cut at its first match, and what redaction and the list of matches make of it. */
  lemma Cut(s: string, i: nat, e: nat, f: Found)
    requires FindStart(s) == i < e <= |s| && MatchEnd(s[i..]) == Some(e - i)
    requires f.prefix == s[..i] && f.matched == s[i..e] && f.rest == s[e..]
    ensures Redact(s) == f.prefix + ReplaceMatch(f.matched) + Redact(f.rest)
    ensures Matches(s) == [f.matched] + Matches(f.rest)
  {
    hide MatchEnd, ReplaceMatch, Redact, Matches, FindStart, FirstMatch, FirstSep;
    RedactStep(s, e);
    MatchesStep(s, f);
  }

  lemma Shifted(r: string, s: string, i: nat, e: nat)
    requires s == "\n" + r && i <= e <= |r|
    ensures s[1 + i..] == r[i..] && s[..1 + i] == "\n" + r[..i]
    ensures s[1 + i..1 + e] == r[i..e] && s[1 + e..] == r[e..]
  {
    assert forall k :: 0 <= k < |r| ==> s[1 + k] == r[k];
  }

  lemma Reassociate(a: string, b: string, c: string, d: string)
    ensures a + b + c + d == a + (b + c + d)
  {
  }

  lemma BreakStartsNothing(s: string)
    requires s != "" && s[0] == '\n'
    ensures MatchEnd(s).None?
  {
    hide IsKeyword;
    var k := TrimReSpace(s[..FirstSep(s)]);
    assert k != "" ==> k[0] == s[0];
    if IsKeyword(k) {
      KeywordIsPlain(k);
    }
  }

  lemma NoMatches(s: string)
    requires FirstMatch(s).None?
    ensures Matches(s) == []
  {
    hide FirstMatch;
  }

  lemma MatchesStep(s: string, f: Found)
    requires FirstMatch(s) == Some(f)
    ensures Matches(s) == [f.matched] + Matches(f.rest)
  {
    hide FirstMatch;
  }

  // ---------------------------------------------------------------- line feeds lost

  /** Redaction loses the line feeds of the values it replaces, and adds none. */
  lemma {:induction false} RedactBreaks(s: string)
    ensures Breaks(Redact(s)) <= Breaks(s)
    ensures forall p: nat, e: nat, rest: string :: FirstReplaced(s, FindStart(s), p, e, rest, Redact(s)) ==>
              Breaks(Redact(s)) + Breaks(s[p..e]) <= Breaks(s)
    decreases |s|
  {
    hide MatchEnd, FindStart, FirstSep, Breaks, Redact;
    if FindStart(s) == |s| {
      Kept(s);
    } else {
      var i := FindStart(s);
      var p, e, rest := RedactUnfolds(s);
      RedactBreaks(s[e..]);
      BreaksAround(s, p, e, rest);
    }
  }

  lemma BreaksAround(s: string, p: nat, e: nat, rest: string)
    requires p < e <= |s| && Breaks(rest) <= Breaks(s[e..])
    ensures Breaks(s[..p] + "=" + MARKER + rest) + Breaks(s[p..e]) <= Breaks(s)
  {
    MarkerUnbroken();
    hide Breaks;
    BreaksConcat(s[..p] + ("=" + MARKER), rest);
    BreaksConcat(s[..p], "=" + MARKER);
    BreaksConcat(s[..p] + s[p..e], s[e..]);
    BreaksConcat(s[..p], s[p..e]);
    assert s[..p] + s[p..e] + s[e..] == s;
    assert s[..p] + ("=" + MARKER) + rest == s[..p] + "=" + MARKER + rest;
  }

  lemma MarkerUnbroken()
    ensures Unbroken(MARKER) && Breaks("=" + MARKER) == 0
  {
    MarkerIsText();
    NoBreaks("=" + MARKER);
  }

  lemma UnbrokenLine(s: string)
    requires Unbroken(s)
    ensures Unbroken(Redact(s))
  {
    hide Redact, Breaks;
    RedactBreaks(s);
    NoBreaks(s);
    NoBreaks(Redact(s));
  }

  /** Line by line, every line feed is kept. */
  lemma {:induction false} LineBreaksKept(s: string)
    ensures Breaks(LineByLine(s)) == Breaks(s)
    decreases |s|
  {
    hide Redact, Breaks, LineByLine;
    var n := LineEnd(s, 0);
    FrontLine(s, n);
    UnbrokenLine(s[..n]);
    NoBreaks(s[..n]);
    NoBreaks(Redact(s[..n]));
    if n == |s| {
      assert s[..n] == s;
    } else {
      LineBreaksKept(s[n + 1..]);
      OneBreak();
      BreaksConcat(Redact(s[..n]) + "\n", LineByLine(s[n + 1..]));
      BreaksConcat(Redact(s[..n]), "\n");
      BreaksConcat(s[..n] + "\n", s[n + 1..]);
      BreaksConcat(s[..n], "\n");
      assert s[..n] + "\n" + s[n + 1..] == s;
    }
  }

  lemma OneBreak()
    ensures Breaks("\n") == 1
  {
    assert "\n"[1..] == "";
  }

  // ---------------------------------------------------------------- the theorem

  /** The first match of s: keyword at i, separator at p, value up to e. */
  ghost predicate FirstAt(s: string, i: nat, p: nat, e: nat) {
    e <= |s| && FirstReplaced(s, i, p, e, Redact(s[e..]), Redact(s))
  }

  lemma {:induction false} ListSplits(s: string, i: nat, p: nat, e: nat)
    requires FirstAt(s, i, p, e)
    ensures AllHarmless(s) <==> Harmless(s[i..e]) && AllHarmless(s[e..])
  {
    hide MatchEnd, FindStart, FirstSep, Redact, Matches, Harmless;
    Cut(s, i, e, Found(s[..i], s[i..e], s[e..]));
    assert Matches(s)[0] == s[i..e];
    assert forall m :: m in Matches(s[e..]) ==> m in Matches(s);
  }

  /** A value that runs over a line end: the line feed is lost. */
  lemma ValueCrosses(s: string, i: nat, p: nat, e: nat)
    requires FirstAt(s, i, p, e) && !Unbroken(s[p + 1..e])
    ensures Redact(s) != LineByLine(s) && !Harmless(s[i..e])
  {
    hide MatchEnd, FindStart, FirstSep, Redact, LineByLine, Breaks, ReplaceMatch;
    RedactBreaks(s);
    LineBreaksKept(s);
    NoBreaks(s[p..e]);
    var k :| p + 1 <= k < e && s[k] == '\n';
    assert s[p..e][k - p] == '\n' && s[i..e][k - i] == '\n';
    ReplacedMatch(s, i, p, e);
    MarkerUnbroken();
    var x := s[i..p] + "=" + MARKER;
    if k - i < |x| {
      assert x[k - i] == MARKER[k - p - 1] && MARKER[k - p - 1] in MARKER;
    }
  }

  lemma ReplacedMatch(s: string, i: nat, p: nat, e: nat)
    requires i <= p < e <= |s| && p == i + FirstSep(s[i..])
    ensures ReplaceMatch(s[i..e]) == s[i..p] + "=" + MARKER
    ensures ReplaceMatch(s[i..e]) == s[i..e] <==> s[i..e][FirstSep(s[i..e])..] == "=" + MARKER
  {
    hide FirstSep, ReplaceMatch;
    SepInMatch(s, i, p, e);
    ReplaceMatchIs(s[i..e]);
    MarkedIsUnchanged(s[i..e]);
    assert s[i..e][..p - i] == s[i..p];
  }

  /** Everything before the separator's line is plain for the line by line redaction. */
  lemma PlainBeforeMatch(s: string, i: nat, p: nat, e: nat, m: nat)
    requires FirstAt(s, i, p, e) && m <= p
    ensures PlainBefore(s, m)
  {
    hide MatchEnd, FindStart, FirstSep, Redact;
    forall j: nat, b: nat | j <= b < m ensures MatchEnd(s[j..b]).None? {
      if j < i {
        NoneInPart(s, j, b);
      } else {
        NoSepBetween(s, i, p, j, b);
      }
    }
  }

  lemma NoneInPart(s: string, j: nat, b: nat)
    requires j <= b <= |s| && MatchEnd(s[j..]).None?
    ensures MatchEnd(s[j..b]).None?
  {
    hide MatchEnd;
    assert s[j..][..b - j] == s[j..b];
    if MatchEnd(s[j..b]).Some? { PartMatches(s[j..], b - j); }
  }

  lemma NoSepBetween(s: string, i: nat, p: nat, j: nat, b: nat)
    requires i <= j <= b <= p < |s| && p == i + FirstSep(s[i..])
    ensures MatchEnd(s[j..b]).None?
  {
    hide MatchEnd, FirstSep;
    assert forall k :: 0 <= k < b - j ==> s[j..b][k] == s[i..][j - i + k];
    FirstSepIs(s[j..b], b - j);
    NoSepNoMatch(s[j..b]);
  }

  /** The first match of the line starts at i, has its separator at i + sep and runs to the end. */
  ghost predicate RunsToEnd(line: string, i: nat, sep: nat) {
    && FindStart(line) == i < |line| && FirstSep(line[i..]) == sep < |line| - i
    && MatchEnd(line[i..]) == Some(|line| - i)
  }

  /** A match that stays on its line is found in that line alone. */
  lemma LineHasMatch(s: string, i: nat, p: nat, e: nat, m: nat)
    requires FirstAt(s, i, p, e)
    requires m <= i <= p < e <= |s| && forall k :: p + 1 <= k < e ==> s[k] != '\n'
    ensures Redact(s[m..e]) == s[m..p] + "=" + MARKER
  {
    hide RunsToEnd, Redact, FirstAt;
    LineStartsMatch(s, i, p, e, m);
    MatchToEnd(s[m..e], i - m, p - i);
    LineFront(s, m, p, e);
  }

  lemma LineFront(s: string, m: nat, p: nat, e: nat)
    requires m <= p <= e <= |s|
    ensures s[m..e][..p - m] == s[m..p]
  {
  }

  lemma MatchToEnd(line: string, i: nat, sep: nat)
    requires RunsToEnd(line, i, sep)
    ensures i + sep < |line| && Redact(line) == line[..i + sep] + "=" + MARKER
  {
    hide MatchEnd, FindStart, FirstSep, Redact, ReplaceMatch;
    StepToEnd(line, i);
    CallbackKeepsKeyword(line, i, i + sep, |line|);
  }

  lemma StepToEnd(line: string, i: nat)
    requires FindStart(line) == i < |line| && MatchEnd(line[i..]) == Some(|line| - i)
    ensures Redact(line) == line[..i] + ReplaceMatch(line[i..|line|])
  {
    hide MatchEnd, FindStart, FirstSep, Redact, ReplaceMatch, FirstMatch;
    RedactStep(line, |line|);
    RedactEmpty();
    assert line[|line|..] == "";
  }

  lemma LineParts(s: string, i: nat, p: nat, e: nat, m: nat)
    requires m <= i <= p < e <= |s|
    ensures var line := s[m..e];
            && line[i - m..] == s[i..e] == s[i..][..e - i] && line[e - m..] == ""
            && line[i - m..e - m] == line[i - m..] && line[..p - m] == s[m..p]
  {
  }

  lemma LineStartsMatch(s: string, i: nat, p: nat, e: nat, m: nat)
    requires FirstAt(s, i, p, e)
    requires m <= i <= p < e <= |s| && forall k :: p + 1 <= k < e ==> s[k] != '\n'
    ensures RunsToEnd(s[m..e], i - m, p - i)
  {
    hide MatchEnd, FindStart, FirstSep, Redact;
    var line := s[m..e];
    LineParts(s, i, p, e, m);
    SepInMatch(s, i, p, e);
    assert forall k :: p - i + 1 <= k < e - i ==> s[i..][k] == s[i + k];
    SamePart(s[i..], e - i);
    forall j | 0 <= j < i - m ensures MatchEnd(line[j..]).None? {
      NoneInLine(s, e, m, j);
    }
    FindStartIs(line, i - m);
  }

  lemma NoneInLine(s: string, e: nat, m: nat, j: nat)
    requires m + j <= e <= |s| && MatchEnd(s[m + j..]).None?
    ensures MatchEnd(s[m..e][j..]).None?
  {
    hide MatchEnd;
    assert s[m..e][j..] == s[m + j..][..e - m - j];
    if MatchEnd(s[m..e][j..]).Some? { PartMatches(s[m + j..], e - m - j); }
  }

  /** Cutting the text behind a match whose value has no line feed keeps the match. */
  lemma SamePart(t: string, c: nat)
    requires MatchEnd(t) == Some(c) && forall k :: FirstSep(t) + 1 <= k < c ==> t[k] != '\n'
    ensures MatchEnd(t[..c]) == Some(c)
  {
    hide IsKeyword, ValueEnd, FirstSep;
    var u, p := t[..c], FirstSep(t);
    assert u[p] == t[p] && u[..p] == t[..p];
    SameHead(t, u, p);
    assert u[p + 1] == t[p + 1];
    assert forall x :: p + 1 <= x < c ==> u[x] == t[x];
    ValueFound(u, p + 1);
  }

  ghost predicate NoneUpTo(line: string, sp: nat)
    requires sp <= |line|
  {
    forall j :: 0 <= j <= sp ==> MatchEnd(line[j..]).None?
  }

  lemma SpacesPlain(line: string, sp: nat)
    requires sp < |line| && IsSep(line[sp]) && forall j :: 0 <= j < sp ==> IsReSpace(line[j])
    ensures NoneUpTo(line, sp) && (FindStart(line) == |line| || FindStart(line) > sp)
  {
    hide MatchEnd, FindStart, IsReSpace, IsSep, FirstSep;
    forall j | 0 <= j <= sp ensures MatchEnd(line[j..]).None? {
      assert line[j..][sp - j] == line[sp] && forall k :: 0 <= k < sp - j ==> line[j..][k] == line[j + k];
      SpacesNoMatch(line[j..], sp - j);
    }
  }

  /** A line that begins with spaces and a separator, seen by itself. */
  lemma SpacesLine(line: string, sp: nat)
    requires sp < |line| && IsSep(line[sp]) && forall j :: 0 <= j < sp ==> IsReSpace(line[j])
    ensures Redact(line) == line[..sp] + "=" + MARKER <==> line == line[..sp] + "=" + MARKER
  {
    hide MatchEnd, FindStart, FirstSep, Redact, IsReSpace, IsSep;
    SpacesPlain(line, sp);
    hide NoneUpTo;
    if line == line[..sp] + "=" + MARKER {
      MarkedLine(line, sp);
    } else if FindStart(line) == |line| {
      Kept(line);
    } else {
      LaterMatch(line, sp);
    }
  }

  lemma LaterMatch(line: string, sp: nat)
    requires sp < FindStart(line) < |line|
    ensures |Redact(line)| > sp + 1 + |MARKER|
  {
    hide MatchEnd, FindStart, FirstSep, Redact;
    var p, e, rest := RedactUnfolds(line);
    HeadNotEmpty(line[FindStart(line)..]);
  }

  lemma MarkedLine(line: string, sp: nat)
    requires sp < |line| && line == line[..sp] + "=" + MARKER
    requires NoneUpTo(line, sp)
    ensures Redact(line) == line
  {
    hide MatchEnd, FirstSep, Redact, Matches, MarkerText;
    MarkerIsText();
    forall j | sp < j <= |line| ensures MatchEnd(line[j..]).None? {
      BehindSep(line, sp, MARKER, j);
    }
    NothingFound(line);
  }

  lemma BehindSep(line: string, sp: nat, m: string, j: nat)
    requires sp < j <= |line| && line == line[..sp] + "=" + m && MarkerText(m)
    ensures MatchEnd(line[j..]).None?
  {
    hide MatchEnd, FirstSep, IsReSpace;
    var t := line[j..];
    assert forall k :: 0 <= k < |t| ==> t[k] == m[j + k - sp - 1];
    FirstSepIs(t, |t|);
    NoSepNoMatch(t);
  }

  lemma SpacesNoMatch(s: string, sp: nat)
    requires sp < |s| && IsSep(s[sp]) && forall j :: 0 <= j < sp ==> IsReSpace(s[j])
    ensures MatchEnd(s).None?
  {
    hide IsKeyword, ValueEnd, FirstSep, TrimReSpace;
    FirstSepIs(s, sp);
    TrimReSpaceIs(s[..sp], "");
    if IsKeyword("") {
      KeywordIsPlain("");
    }
  }

  lemma HeadNotEmpty(s: string)
    requires MatchEnd(s).Some?
    ensures FirstSep(s) > 0
  {
    hide IsKeyword, ValueEnd, FirstSep;
    KeywordIsPlain(TrimReSpace(s[..FirstSep(s)]));
  }

  /** A head that runs over a line end leaves only spaces before the separator on the last line. */
  lemma HeadCrosses(s: string, i: nat, p: nat, m: nat)
    requires i < m <= p < |s| && HasHead(s[i..]) && p == i + FirstSep(s[i..]) && s[m - 1] == '\n'
    ensures forall j :: m <= j < p ==> IsReSpace(s[j])
  {
    hide IsKeyword, FirstSep, TrimReSpace;
    var t := s[i..];
    var k := TrimReSpace(t[..p - i]);
    KeywordIsPlain(k);
    assert t[m - 1 - i] == s[m - 1] && forall x :: 0 <= x < |k| ==> k[x] == t[x];
    assert |k| <= m - 1 - i;
    assert forall j :: m <= j < p ==> s[j] == t[..p - i][j - i];
  }

  /** The separator's line comes out of both redactions alike exactly when the match is harmless. */
  lemma SepLine(s: string, i: nat, p: nat, e: nat, m: nat)
    requires FirstAt(s, i, p, e) && m == LineStart(s, p) && Unbroken(s[p + 1..e])
    ensures Redact(s[m..e]) == s[m..p] + "=" + MARKER <==> Harmless(s[i..e])
  {
    hide MatchEnd, FindStart, FirstSep, Redact, ReplaceMatch, LineStart;
    assert forall k :: p + 1 <= k < e ==> s[k] == s[p + 1..e][k - p - 1];
    if m <= i {
      LineHasMatch(s, i, p, e, m);
      assert IsSep(s[p]) by { assert s[i..][p - i] == s[p]; }
      OneLineMatch(s, i, p, e, m);
    } else {
      CrossedHead(s, i, p, e, m);
    }
  }

  lemma OneLineMatch(s: string, i: nat, p: nat, e: nat, m: nat)
    requires m <= i <= p < e <= |s| && IsSep(s[p])
    requires (forall k :: m <= k < p ==> s[k] != '\n') && (forall k :: p + 1 <= k < e ==> s[k] != '\n')
    ensures Harmless(s[i..e])
  {
    hide ReplaceMatch;
    assert forall k :: 0 <= k < e - i ==> s[i..e][k] == s[i + k];
  }

  lemma CrossedHead(s: string, i: nat, p: nat, e: nat, m: nat)
    requires FirstAt(s, i, p, e) && i < m <= p && s[m - 1] == '\n'
    ensures Redact(s[m..e]) == s[m..p] + "=" + MARKER <==> Harmless(s[i..e])
  {
    hide MatchEnd, FindStart, FirstSep, Redact, ReplaceMatch;
    assert s[i..e][m - 1 - i] == '\n';
    HeadOf(s[i..]);
    HeadCrosses(s, i, p, m);
    assert IsSep(s[p]) by { assert s[i..][p - i] == s[p]; }
    ReplacedMatch(s, i, p, e);
    hide FirstAt;
    SpacesInText(s, m, p, e);
    HeadGlued(s, i, m, p, e);
  }

  lemma SpacesInText(s: string, m: nat, p: nat, e: nat)
    requires m <= p < e <= |s| && IsSep(s[p]) && forall j :: m <= j < p ==> IsReSpace(s[j])
    ensures Redact(s[m..e]) == s[m..p] + "=" + MARKER <==> s[m..e] == s[m..p] + "=" + MARKER
  {
    hide Redact, IsReSpace, IsSep;
    var line := s[m..e];
    assert forall j :: 0 <= j <= p - m ==> line[j] == s[m + j];
    LineFront(s, m, p, e);
    SpacesLine(line, p - m);
  }

  lemma HeadGlued(s: string, i: nat, m: nat, p: nat, e: nat)
    requires i <= m <= p < e <= |s|
    ensures s[i..p] + "=" + MARKER == s[i..e] <==> s[m..p] + "=" + MARKER == s[m..e]
  {
    var x := s[m..p] + "=" + MARKER;
    assert s[i..e] == s[i..m] + s[m..e];
    assert s[i..p] == s[i..m] + s[m..p];
    Reassociate(s[i..m], s[m..p], "=", MARKER);
    SamePrefix(s[i..m], s[m..e], x);
  }

  lemma HeadOf(t: string)
    requires MatchEnd(t).Some?
    ensures HasHead(t)
  {
    hide HasHead, ValueEnd;
  }

  /** What follows the separator's line, in the line by line redaction. */
  function After(s: string, e: nat): string
    requires e <= |s|
  {
    if e == |s| then "" else "\n" + LineByLine(s[e + 1..])
  }

  lemma LinesCut(s: string, e: nat, m: nat)
    requires m <= e <= |s| && (m == 0 || s[m - 1] == '\n') && (e < |s| ==> s[e] == '\n')
    requires PlainBefore(s, m) && Unbroken(s[m..e])
    ensures LineByLine(s) == s[..m] + (Redact(s[m..e]) + After(s, e))
  {
    hide Redact, LineByLine, PlainBefore, Unbroken;
    PlainLines(s, m);
    LineOf(s, m, e);
    FrontLine(s[m..], e - m);
    AfterLine(s, m, e);
  }

  lemma AfterLine(s: string, m: nat, e: nat)
    requires m <= e <= |s|
    ensures Redact(s[m..e]) + After(s, e)
         == if e == |s| then Redact(s[m..e]) else Redact(s[m..e]) + "\n" + LineByLine(s[e + 1..])
  {
    hide Redact, LineByLine;
    var a, b := Redact(s[m..e]), if e == |s| then "" else LineByLine(s[e + 1..]);
    assert a + ("\n" + b) == a + "\n" + b;
  }

  lemma LineOf(s: string, m: nat, e: nat)
    requires m <= e <= |s|
    ensures s[m..][..e - m] == s[m..e]
    ensures e < |s| ==> s[m..][e - m] == s[e] && s[m..][e - m + 1..] == s[e + 1..]
  {
  }

  lemma TextCut(s: string, p: nat, e: nat, m: nat, tail: string)
    requires m <= p < e <= |s|
    ensures s[..p] + "=" + MARKER + tail == s[..m] + (s[m..p] + "=" + MARKER + tail)
  {
    assert s[..p] == s[..m] + s[m..p];
    Reassociate(s[..m], s[m..p], "=", MARKER);
    var x := s[m..p] + "=" + MARKER;
    assert s[..m] + x + tail == s[..m] + (x + tail);
  }

  /** The separator's line has no line feed in it, and neither has what it becomes. */
  lemma SepLineUnbroken(s: string, p: nat, e: nat, m: nat)
    requires m <= p < e <= |s| && IsSep(s[p]) && Unbroken(s[p + 1..e])
    requires forall j :: m <= j < p ==> s[j] != '\n'
    ensures Unbroken(s[m..e]) && Unbroken(s[m..p] + "=" + MARKER)
  {
    hide Unbroken;
    MarkerUnbroken();
    UnbrokenPart(s, m, p);
    UnbrokenSep(s[p]);
    var front := s[m..p];
    CutAtSep(s, m, p, e);
    UnbrokenConcat(front + [s[p]], s[p + 1..e]);
    UnbrokenConcat(front, [s[p]]);
    UnbrokenSep('=');
    UnbrokenConcat(front, "=");
    UnbrokenConcat(front + "=", MARKER);
  }

  lemma CutAtSep(s: string, m: nat, p: nat, e: nat)
    requires m <= p < e <= |s|
    ensures s[m..e] == s[m..p] + [s[p]] + s[p + 1..e]
  {
  }

  lemma UnbrokenPart(s: string, a: nat, b: nat)
    requires a <= b <= |s| && forall j :: a <= j < b ==> s[j] != '\n'
    ensures Unbroken(s[a..b])
  {
  }

  lemma UnbrokenSep(c: char)
    requires IsSep(c)
    ensures Unbroken([c])
  {
  }

  lemma UnbrokenConcat(a: string, b: string)
    requires Unbroken(a) && Unbroken(b)
    ensures Unbroken(a + b)
  {
  }

  /** The text without a match, stripped of the views that do not matter here. */
  lemma Kept(s: string)
    requires FindStart(s) == |s|
    ensures FirstMatch(s).None? && Redact(s) == s
  {
    hide MatchEnd, FindStart, Redact, FirstMatch, Values, Outside;
    Redactor.NothingFound(s);
  }

  ghost predicate Unmatched(s: string) {
    FindStart(s) == |s|
  }

  lemma NoMatchAtAll(s: string)
    requires Unmatched(s)
    ensures Redact(s) == LineByLine(s) && AllHarmless(s)
  {
    Kept(s);
    hide Redact, LineByLine, Matches, AllHarmless, Unmatched, FirstMatch;
    NoMatches(s);
    NothingHarms(s);
    UnmatchedLines(s, LineStart(s, |s|));
  }

  lemma UnmatchedLines(s: string, m: nat)
    requires Unmatched(s) && m <= |s| && (m == 0 || s[m - 1] == '\n') && forall j :: m <= j < |s| ==> s[j] != '\n'
    ensures LineByLine(s) == s
  {
    hide LineByLine, Unmatched, PlainBefore;
    PlainWithoutMatch(s, m);
    LastLine(s, m);
    PlainText(s, m);
  }

  lemma PlainText(s: string, m: nat)
    requires m <= |s| && (m == 0 || s[m - 1] == '\n') && PlainBefore(s, m) && LineByLine(s[m..]) == s[m..]
    ensures LineByLine(s) == s
  {
    hide LineByLine, PlainBefore;
    PlainLines(s, m);
    CutAt(s, m);
  }

  lemma CutAt(s: string, m: nat)
    requires m <= |s|
    ensures s[..m] + s[m..] == s
  {
  }

  lemma PlainWithoutMatch(s: string, m: nat)
    requires Unmatched(s) && m <= |s|
    ensures PlainBefore(s, m)
  {
    hide MatchEnd, FindStart, FirstSep;
    forall j: nat, b: nat | j <= b < m ensures MatchEnd(s[j..b]).None? {
      NoneInPart(s, j, b);
    }
  }

  lemma NothingHarms(s: string)
    requires Matches(s) == []
    ensures AllHarmless(s)
  {
    hide Matches;
  }

  lemma LastLine(s: string, m: nat)
    requires Unmatched(s) && m <= |s| && forall j :: m <= j < |s| ==> s[j] != '\n'
    ensures LineByLine(s[m..]) == s[m..]
  {
    hide MatchEnd, FindStart, Redact, LineByLine, Matches, FirstSep;
    var t := s[m..];
    forall j | 0 <= j <= |t| ensures MatchEnd(t[j..]).None? {
      assert t[j..] == s[m + j..];
      if j == |t| {
        assert t[j..] == "";
        EmptyNoMatch();
      }
    }
    NothingFound(t);
    assert t[..|t|] == t;
    assert forall k :: 0 <= k < |t| ==> t[k] == s[m + k];
    FrontLine(t, |t|);
  }

  lemma EmptyNoMatch()
    ensures MatchEnd("").None?
  {
  }

  /**
   * The package comment says redaction is line-bounded, each affected line on its own. Over all
   * texts: Redact gives what redacting line by line gives exactly when every match that spans lines
   * is one redaction leaves as it is.
   */
  lemma {:induction false} LineBounded(s: string)
    ensures Redact(s) == LineByLine(s) <==> AllHarmless(s)
    decreases |s|
  {
    hide MatchEnd, FindStart, FirstSep, Redact, LineByLine, LineStart, AllHarmless, Harmless;
    if FindStart(s) == |s| {
      NoMatchAtAll(s);
    } else {
      var i := FindStart(s);
      var p, e, rest := RedactUnfolds(s);
      ListSplits(s, i, p, e);
      if !Unbroken(s[p + 1..e]) {
        ValueCrosses(s, i, p, e);
      } else {
        var m := LineStart(s, p);
        assert IsSep(s[p]) by { assert s[i..][p - i] == s[p]; }
        SepLineUnbroken(s, p, e, m);
        PlainBeforeMatch(s, i, p, e, m);
        LinesCut(s, e, m);
        TextCut(s, p, e, m, Redact(s[e..]));
        SepLine(s, i, p, e, m);
        Tail(s, e);
        if e < |s| {
          LineBounded(s[e + 1..]);
        }
        UnbrokenLine(s[m..e]);
        SamePrefix(s[..m], Redact(s[m..e]) + After(s, e), s[m..p] + "=" + MARKER + Redact(s[e..]));
        SameFront(Redact(s[m..e]), s[m..p] + "=" + MARKER, After(s, e), Redact(s[e..]));
      }
    }
  }

  /** Behind the match the comparison is that of the following lines. */
  lemma Tail(s: string, e: nat)
    requires e <= |s| && (e < |s| ==> s[e] == '\n')
    ensures After(s, e) == "" || After(s, e)[0] == '\n'
    ensures Redact(s[e..]) == "" || Redact(s[e..])[0] == '\n'
    ensures e == |s| ==> After(s, e) == Redact(s[e..]) && AllHarmless(s[e..])
    ensures e < |s| ==> (After(s, e) == Redact(s[e..]) <==> LineByLine(s[e + 1..]) == Redact(s[e + 1..]))
    ensures e < |s| ==> (AllHarmless(s[e..]) <==> AllHarmless(s[e + 1..]))
  {
    hide Redact, LineByLine, Matches, FindStart, MatchEnd, Harmless;
    if e == |s| {
      assert s[e..] == "";
      RedactEmpty();
      NoMatchAtAll("");
    } else {
      var r := s[e + 1..];
      assert s[e..] == "\n" + r;
      LeadingBreak(r);
      SamePrefix("\n", LineByLine(r), Redact(r));
    }
  }

  /** A match may span lines and be harmless: its value is the marker and its separator an equals sign. */
  lemma HarmlessCrossing(keyword: string)
    requires IsKeyword(keyword)
    ensures var m := keyword + "\n=" + MARKER;
            !Unbroken(m) && Harmless(m)
  {
    hide IsKeyword;
    KeywordIsPlain(keyword);
    var n := |keyword|;
    var m := keyword + "\n=" + MARKER;
    assert m[n] == '\n' && m[n + 1] == '=' && forall j :: 0 <= j < n ==> m[j] == keyword[j];
    FirstSepIs(m, n + 1);
    hide FirstSep;
    assert m[n + 1..] == "=" + MARKER;
  }

  /** Two lines the redactor takes for one: its value crosses, and a line feed is lost. */
  lemma ValueLosesBreak()
    ensures Redact("token:\nx") != LineByLine("token:\nx")
  {
    hide Redact, LineByLine, MARKER;
    MatchCrossesLine();
    LineBreaksKept("token:\nx");
    assert "token:\nx"[6] == '\n';
    NoBreaks("token:\nx");
    TokenUnbroken();
  }

  lemma TokenUnbroken()
    ensures Breaks("token=" + MARKER) == 0
  {
    MarkerUnbroken();
    NoBreaks("token=");
    NoBreaks("token=" + MARKER);
  }
}
