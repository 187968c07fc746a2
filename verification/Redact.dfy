/**
 * The redactor: keyword, separator and value are found by one regular expression, leftmost match
 * first, and every value is replaced by a marker.
 */
module Redact {
  import opened Wrappers

  const MARKER := "***REDACTED***"

  // The alternatives of the keyword group, optional parts written out.
  const KEYWORDS := [
    "password", "passwd", "token", "secret", "bearer", "apikey", "api_key", "api-key",
    "aws_access_key", "aws_access_key_id", "aws_secret_key", "aws_secret_key_id",
    "aws_secret_access_key", "aws_secret_access_key_id", "aws_session_token", "authorization"]

  /** The class \s. */
  predicate IsReSpace(c: char) {
    c == '\t' || c == '\n' || c == '\U{0C}' || c == '\r' || c == ' '
  }

  predicate IsSep(c: char) {
    c == ':' || c == '='
  }

  /** Case folding of (?i): c stands for the pattern character k. Two letters have a third form. */
  predicate Folds(c: char, k: char) {
    c == k || ('a' <= k <= 'z' && (c as int) + 32 == k as int)
    || (k == 's' && c == '\U{017F}') || (k == 'k' && c == '\U{212A}')
  }

  predicate Spells(w: string, keyword: string) {
    |w| == |keyword| && forall j :: 0 <= j < |w| ==> Folds(w[j], keyword[j])
  }

  predicate IsKeyword(w: string) {
    exists k :: 0 <= k < |KEYWORDS| && Spells(w, KEYWORDS[k])
  }

  // ---------------------------------------------------------------- one match

  /** The length of the text before the first separator; all of it when there is none. */
  function FirstSep(s: string): (p: nat)
    ensures p <= |s|
    ensures p < |s| ==> IsSep(s[p])
    ensures forall j :: 0 <= j < p ==> !IsSep(s[j])
  {
    if s == "" || IsSep(s[0]) then 0 else 1 + FirstSep(s[1..])
  }

  /** The text before the trailing run of \s. */
  function TrimReSpace(s: string): (r: string)
    ensures r <= s
    ensures forall j :: |r| <= j < |s| ==> IsReSpace(s[j])
    ensures r != "" ==> !IsReSpace(r[|r| - 1])
  {
    if s != "" && IsReSpace(s[|s| - 1]) then TrimReSpace(s[..|s| - 1]) else s
  }

  /** How far the greedy \s* runs. */
  function SpaceRun(s: string): (n: nat)
    ensures n <= |s|
    ensures forall j :: 0 <= j < n ==> IsReSpace(s[j])
    ensures n < |s| ==> !IsReSpace(s[n])
  {
    if s == "" || !IsReSpace(s[0]) then 0 else 1 + SpaceRun(s[1..])
  }

  /** How far .+ runs from s[j]. */
  function LineEnd(s: string, j: nat): (e: nat)
    requires j <= |s|
    ensures j <= e <= |s|
    ensures e < |s| ==> s[e] == '\n'
    ensures forall k :: j <= k < e ==> s[k] != '\n'
    decreases |s| - j
  {
    if j == |s| || s[j] == '\n' then j else LineEnd(s, j + 1)
  }

  /** \s*.+ at s[q]: give back spaces, last first, until .+ finds a character. */
  function Backtrack(s: string, q: nat, m: nat): (e: Option<nat>)
    requires q + m <= |s|
    ensures e.Some? ==> q < e.value <= |s| && (e.value < |s| ==> s[e.value] == '\n')
    decreases m
  {
    if q + m < |s| && s[q + m] != '\n' then Some(LineEnd(s, q + m + 1))
    else if m == 0 then None
    else Backtrack(s, q, m - 1)
  }

  function ValueEnd(s: string, q: nat): (e: Option<nat>)
    requires q <= |s|
    ensures e.Some? ==> q < e.value <= |s| && (e.value < |s| ==> s[e.value] == '\n')
  {
    Backtrack(s, q, SpaceRun(s[q..]))
  }

  /** keyword \s* separator, at the start of s. */
  predicate HasHead(s: string) {
    FirstSep(s) < |s| && IsKeyword(TrimReSpace(s[..FirstSep(s)]))
  }

  /** The end of the match that starts at the start of s. */
  function MatchEnd(s: string): (e: Option<nat>)
    ensures e.Some? ==> FirstSep(s) + 1 < e.value <= |s|
  {
    if HasHead(s) then ValueEnd(s, FirstSep(s) + 1) else None
  }

  // ---------------------------------------------------------------- the text

  /** Start of the leftmost match; |s| when there is none. */
  function FindStart(s: string): (i: nat)
    ensures i <= |s|
    ensures i < |s| ==> MatchEnd(s[i..]).Some?
    ensures forall j :: 0 <= j < i ==> MatchEnd(s[j..]).None?
  {
    hide MatchEnd, FirstSep;
    assert s[0..] == s;
    if s == "" || MatchEnd(s).Some? then 0
    else
      assert forall j :: 1 <= j <= |s| ==> s[j..] == s[1..][j - 1..];
      1 + FindStart(s[1..])
  }

  /** The callback: keep what stands before the first separator of the match. */
  function ReplaceMatch(m: string): string {
    if FirstSep(m) < |m| then m[..FirstSep(m)] + "=" + MARKER else MARKER
  }

  // The text cut at its leftmost match.
  datatype Found = Found(prefix: string, matched: string, rest: string)

  function FirstMatch(s: string): (f: Option<Found>)
    ensures f.Some? ==> |f.value.rest| < |s|
  {
    hide FindStart, MatchEnd, FirstSep;
    var i := FindStart(s);
    if i == |s| then None
    else
      hide CutAt;
      Some(CutAt(s, i, i + MatchEnd(s[i..]).value))
  }

  function CutAt(s: string, i: nat, e: nat): (f: Found)
    requires i <= e <= |s|
    ensures f.prefix + f.matched + f.rest == s && |f.prefix| == i && |f.matched| == e - i
  {
    Found(s[..i], s[i..e], s[e..])
  }

  function Redact(s: string): string
    decreases |s|
  {
    match FirstMatch(s)
    case None => s
    case Some(f) => f.prefix + ReplaceMatch(f.matched) + Redact(f.rest)
  }

  // ---------------------------------------------------------------- what a match is

  lemma KeywordCharacters(k: nat)
    requires k < |KEYWORDS|
    ensures KEYWORDS[k] != ""
    ensures forall j :: 0 <= j < |KEYWORDS[k]| ==>
              'a' <= KEYWORDS[k][j] <= 'z' || KEYWORDS[k][j] == '_' || KEYWORDS[k][j] == '-'
  {
  }

  lemma KeywordIsPlain(w: string)
    requires IsKeyword(w)
    ensures w != "" && forall j :: 0 <= j < |w| ==> !IsSep(w[j]) && !IsReSpace(w[j])
  {
    var k :| 0 <= k < |KEYWORDS| && Spells(w, KEYWORDS[k]);
    KeywordCharacters(k);
  }

  lemma FirstSepIs(s: string, p: nat)
    requires p <= |s| && (p < |s| ==> IsSep(s[p]))
    requires forall j :: 0 <= j < p ==> !IsSep(s[j])
    ensures FirstSep(s) == p
  {
  }

  lemma TrimReSpaceIs(s: string, r: string)
    requires r <= s && (forall j :: |r| <= j < |s| ==> IsReSpace(s[j]))
    requires r != "" ==> !IsReSpace(r[|r| - 1])
    ensures TrimReSpace(s) == r
  {
    var t := TrimReSpace(s);
    assert |t| == |r|;
  }

  /**
   * The head is what the expression says: some keyword, spaces, a separator; and there is only one
   * way to read it, so the order of the alternatives is immaterial.
   */
  lemma HeadMeaning(s: string, k: nat, p: nat)
    requires k <= p < |s|
    ensures IsKeyword(s[..k]) && (forall j :: k <= j < p ==> IsReSpace(s[j])) && IsSep(s[p])
       <==> HasHead(s) && p == FirstSep(s) && k == |TrimReSpace(s[..p])|
  {
    hide IsKeyword;
    if IsKeyword(s[..k]) && (forall j :: k <= j < p ==> IsReSpace(s[j])) && IsSep(s[p]) {
      KeywordIsPlain(s[..k]);
      assert forall j :: 0 <= j < k ==> s[j] == s[..k][j];
      FirstSepIs(s, p);
      assert s[..k] <= s[..p];
      TrimReSpaceIs(s[..p], s[..k]);
    }
    if HasHead(s) && p == FirstSep(s) && k == |TrimReSpace(s[..p])| {
      assert s[..k] == TrimReSpace(s[..p]);
    }
  }

  /** A value is found exactly when something other than line feeds is left. */
  lemma {:induction false} BacktrackFinds(s: string, q: nat, m: nat)
    requires q + m <= |s|
    ensures Backtrack(s, q, m).Some? <==> exists j :: q <= j <= q + m && j < |s| && s[j] != '\n'
    decreases m
  {
    if !(q + m < |s| && s[q + m] != '\n') && m > 0 {
      BacktrackFinds(s, q, m - 1);
    }
  }

  lemma ValueFound(s: string, q: nat)
    requires q <= |s|
    ensures ValueEnd(s, q).Some? <==> exists j :: q <= j < |s| && s[j] != '\n'
  {
    var n := SpaceRun(s[q..]);
    BacktrackFinds(s, q, n);
    if q + n < |s| {
      assert s[q..][n] == s[q + n];
    }
  }

  /** s[q..] read as spaces up to v and a value from v to e that no longer value extends. */
  ghost predicate ValueAt(s: string, q: nat, v: nat, e: nat) {
    && q <= v < e <= |s|
    && (forall j :: q <= j < v ==> IsReSpace(s[j]))
    && (forall j :: v <= j < e ==> s[j] != '\n')
    && (e < |s| ==> s[e] == '\n')
  }

  /**
   * The value found is the one a greedy engine prefers: among all readings of \s*.+ the one that
   * gives the most to the spaces, and then runs to the end of its line.
   */
  lemma ValueMeaning(s: string, q: nat, e: nat)
    requires q <= |s|
    ensures ValueEnd(s, q) == Some(e)
       <==> exists v :: ValueAt(s, q, v, e) && forall w: nat, f: nat :: ValueAt(s, q, w, f) ==> w <= v
  {
    hide ValueEnd;
    if ValueEnd(s, q).Some? {
      var v := ValueChosen(s, q);
      if w :| 0 <= w && ValueAt(s, q, w, e) && forall x: nat, f: nat :: ValueAt(s, q, x, f) ==> x <= w {
        assert w == v;
      }
    } else {
      forall w: nat ensures !ValueAt(s, q, w, e) {
        if ValueAt(s, q, w, e) { SomeValue(s, q, w, e); }
      }
    }
  }

  lemma SomeValue(s: string, q: nat, v: nat, e: nat)
    requires ValueAt(s, q, v, e)
    ensures ValueEnd(s, q).Some?
  {
    ValueFound(s, q);
    assert s[v] != '\n';
  }

  lemma ValueChosen(s: string, q: nat) returns (v: nat)
    requires q <= |s| && ValueEnd(s, q).Some?
    ensures ValueAt(s, q, v, ValueEnd(s, q).value)
    ensures forall w: nat, f: nat :: ValueAt(s, q, w, f) ==> w <= v
  {
    var n := SpaceRun(s[q..]);
    assert forall j :: q <= j < |s| ==> s[q..][j - q] == s[j];
    BacktrackStops(s, q, n);
    v :| q <= v <= q + n && v < |s| && s[v] != '\n' && ValueEnd(s, q).value == LineEnd(s, v)
         && forall k :: v < k <= q + n && k < |s| ==> s[k] == '\n';
    hide ValueEnd, LineEnd;
    forall w: nat, f: nat | ValueAt(s, q, w, f) ensures w <= v {
      assert s[w] != '\n';
    }
  }

  // ---------------------------------------------------------------- idempotence

  /** The value, if it starts with a character that is no space, runs to the end of its line. */
  lemma MarkerValue(s: string, q: nat, e: nat)
    requires q < e <= |s| && !IsReSpace(s[q])
    requires (forall j :: q <= j < e ==> s[j] != '\n') && (e < |s| ==> s[e] == '\n')
    ensures ValueEnd(s, q) == Some(e)
  {
    assert s[q..][0] == s[q];
  }

  lemma RedactStartsLikeRest(s: string)
    requires s == "" || s[0] == '\n'
    ensures Redact(s) == "" || Redact(s)[0] == '\n'
  {
    hide IsKeyword;
    assert s[0..] == s;
    var k := TrimReSpace(s[..FirstSep(s)]);
    assert k != "" ==> k[0] == s[0];
    if IsKeyword(k) {
      KeywordIsPlain(k);
    }
    assert FindStart(s) < |s| ==> FindStart(s) > 0;
  }

  /** s with its first match, from start to sep to end, replaced; rest is what follows. */
  ghost predicate FirstReplaced(s: string, i: nat, p: nat, e: nat, rest: string, out: string) {
    && FindStart(s) == i < |s|
    && p == i + FirstSep(s[i..]) < |s|
    && MatchEnd(s[i..]) == Some(e - i) && p + 1 < e <= |s|
    && rest == Redact(s[e..])
    && out == s[..p] + "=" + MARKER + rest
    && (e < |s| ==> s[e] == '\n')
  }

  /** The callback keeps the match up to its separator; its fallback is never taken. */
  lemma CallbackKeepsKeyword(s: string, i: nat, p: nat, e: nat)
    requires i <= p < e <= |s| && p == i + FirstSep(s[i..])
    ensures FirstSep(s[i..e]) == p - i < |s[i..e]|
    ensures s[..i] + ReplaceMatch(s[i..e]) == s[..p] + "=" + MARKER
  {
    hide FirstSep, ReplaceMatch;
    SepInMatch(s, i, p, e);
    assert s[i..e][..p - i] == s[i..p];
    ReplaceMatchIs(s[i..e]);
    Glue(s[..i], s[i..p], "=", MARKER);
    assert s[..i] + s[i..p] == s[..p];
  }

  lemma ReplaceMatchIs(m: string)
    requires FirstSep(m) < |m|
    ensures ReplaceMatch(m) == m[..FirstSep(m)] + "=" + MARKER
  {
    hide FirstSep;
  }

  lemma SepInMatch(s: string, i: nat, p: nat, e: nat)
    requires i <= p < e <= |s| && p == i + FirstSep(s[i..])
    ensures FirstSep(s[i..e]) == p - i
  {
    var t, m := s[i..], s[i..e];
    hide FirstSep;
    assert forall j :: 0 <= j < e - i ==> m[j] == t[j];
    FirstSepIs(m, p - i);
  }

  lemma Glue(a: string, b: string, c: string, d: string)
    ensures a + (b + c + d) == a + b + c + d
  {
  }

  lemma RedactStep(s: string, e: nat)
    requires FindStart(s) < |s| && MatchEnd(s[FindStart(s)..]).Some?
    requires e == FindStart(s) + MatchEnd(s[FindStart(s)..]).value
    ensures e <= |s|
    ensures FirstMatch(s) == Some(Found(s[..FindStart(s)], s[FindStart(s)..e], s[e..]))
    ensures Redact(s) == s[..FindStart(s)] + ReplaceMatch(s[FindStart(s)..e]) + Redact(s[e..])
  {
    hide FirstMatch, ReplaceMatch, MatchEnd, FindStart, FirstSep, CutAt;
    CutAtFirstMatch(s);
    var f := FirstMatch(s).value;
    ThreeParts(s, f.prefix, f.matched, f.rest);
  }

  lemma CutAtFirstMatch(s: string)
    requires FindStart(s) < |s|
    ensures FirstMatch(s) == Some(CutAt(s, FindStart(s), FindStart(s) + MatchEnd(s[FindStart(s)..]).value))
  {
    hide FindStart, MatchEnd, FirstSep, CutAt;
  }

  lemma ThreeParts(s: string, a: string, b: string, c: string)
    requires a + b + c == s
    ensures a == s[..|a|] && b == s[|a|..|a| + |b|] && c == s[|a| + |b|..]
  {
  }

  /** Redaction replaces the first match and goes on behind it. */
  lemma RedactUnfolds(s: string) returns (p: nat, e: nat, rest: string)
    requires FindStart(s) < |s|
    ensures FirstReplaced(s, FindStart(s), p, e, rest, Redact(s))
    ensures FirstSep(s[FindStart(s)..e]) < |s[FindStart(s)..e]|
  {
    hide FindStart, HasHead, ValueEnd, ReplaceMatch, FirstSep, Redact;
    var i := FindStart(s);
    var t := s[i..];
    p := i + FirstSep(t);
    e := i + MatchEnd(t).value;
    rest := Redact(s[e..]);
    RedactStep(s, e);
    CallbackKeepsKeyword(s, i, p, e);
    if e < |s| { assert t[e - i] == s[e]; }
  }

  lemma SameHead(a: string, b: string, p: nat)
    requires p < |a| && p < |b| && a[..p] == b[..p] && IsSep(a[p]) && IsSep(b[p])
    ensures FirstSep(a) == FirstSep(b) <= p
    ensures HasHead(a) <==> HasHead(b)
  {
    hide IsKeyword;
    var f := FirstSep(a);
    assert forall j :: 0 <= j < p ==> a[j] == a[..p][j] && b[j] == b[..p][j];
    assert f <= p;
    FirstSepIs(b, f);
    assert a[..f] == a[..p][..f] == b[..p][..f] == b[..f];
  }

  /** A head in front of another match would have had a value, so it would have matched. */
  lemma HeadBeforeMatch(s: string, i: nat, p: nat, j: nat)
    requires j < i <= p < |s| && p == i + FirstSep(s[i..]) && MatchEnd(s[i..]).Some?
    requires MatchEnd(s[j..]).None?
    ensures HasHead(s[j..]) ==> FirstSep(s[j..]) > p - j
  {
    hide IsKeyword, Backtrack, SpaceRun;
    var a, t := s[j..], s[i..];
    ValueFound(t, p - i + 1);
    var x :| p - i + 1 <= x < |t| && t[x] != '\n';
    assert a[x + i - j] == t[x];
    if HasHead(a) && FirstSep(a) <= p - j {
      ValueFound(a, FirstSep(a) + 1);
    }
  }

  /** Replacing a value never creates an earlier match. */
  lemma NoEarlierMatch(s: string, i: nat, p: nat, e: nat, rest: string, out: string, j: nat)
    requires FirstReplaced(s, i, p, e, rest, out) && j < i
    ensures MatchEnd(out[j..]).None?
  {
    hide IsKeyword, ValueEnd, FindStart, Redact, HasHead, FirstSep;
    var a, b := s[j..], out[j..];
    assert IsSep(s[i..][p - i]) && s[i..][p - i] == s[p];
    assert a[p - j] == s[p] && b[p - j] == out[p] == '=';
    assert a[..p - j] == b[..p - j] by {
      assert a[..p - j] == s[..p][j..] && b[..p - j] == out[..p][j..] && out[..p] == s[..p];
    }
    SameHead(a, b, p - j);
    HeadBeforeMatch(s, i, p, j);
  }

  lemma MatchStays(s: string, i: nat, p: nat, e: nat, rest: string, out: string)
    requires FirstReplaced(s, i, p, e, rest, out)
    ensures FirstSep(out[i..]) == p - i && MatchEnd(out[i..]) == Some(p + 1 + |MARKER| - i)
  {
    hide IsKeyword, FindStart, ValueEnd, Redact, FirstSep, HasHead;
    var a, b := s[i..], out[i..];
    assert a[p - i] == s[p] && b[p - i] == '=' && a[..p - i] == b[..p - i];
    SameHead(a, b, p - i);
    RedactStartsLikeRest(s[e..]);
    MarkerIsText();
    assert b == s[i..p] + "=" + MARKER + rest;
    MarkerIsValue(s[i..p] + "=", MARKER, rest);
  }

  lemma MarkerIsValue(front: string, m: string, rest: string)
    requires MarkerText(m) && (rest == "" || rest[0] == '\n')
    ensures ValueEnd(front + m + rest, |front|) == Some(|front| + |m|)
  {
    hide ValueEnd, IsReSpace;
    var b := front + m + rest;
    assert forall x :: |front| <= x < |front| + |m| ==> b[x] == m[x - |front|];
    MarkerValue(b, |front|, |front| + |m|);
  }

  predicate MarkerText(m: string) {
    m != "" && !IsReSpace(m[0]) && forall j :: 0 <= j < |m| ==> m[j] != '\n' && !IsSep(m[j])
  }

  lemma MarkerIsText()
    ensures MarkerText(MARKER)
  {
  }

  lemma FindStartIs(s: string, i: nat)
    requires i < |s| && MatchEnd(s[i..]).Some?
    requires forall j :: 0 <= j < i ==> MatchEnd(s[j..]).None?
    ensures FindStart(s) == i
  {
    hide MatchEnd;
    var k := FindStart(s);
    assert k < |s| ==> MatchEnd(s[k..]).Some?;
  }

  /** The output's first match is the input's, with the marker as its value; behind it comes the rest. */
  lemma FirstMatchOfOutput(s: string, i: nat, p: nat, e: nat, rest: string, out: string)
    requires FirstReplaced(s, i, p, e, rest, out)
    ensures FirstReplaced(out, i, p, p + 1 + |MARKER|, Redact(rest), Redact(out))
    ensures out[p + 1..p + 1 + |MARKER|] == MARKER && out[..p] == s[..p]
  {
    hide IsKeyword, MatchEnd, Redact, FindStart;
    forall j | 0 <= j < i ensures MatchEnd(out[j..]).None? {
      NoEarlierMatch(s, i, p, e, rest, out, j);
    }
    MatchStays(s, i, p, e, rest, out);
    FindStartIs(out, i);
    var p2, e2, rest2 := RedactUnfolds(out);
    assert e2 == p + 1 + |MARKER|;
    assert out[e2..] == rest;
  }

  /** Redact is idempotent, on every text. */
  lemma {:induction false} RedactIdempotent(s: string)
    ensures Redact(Redact(s)) == Redact(s)
    decreases |s|
  {
    hide IsKeyword, MatchEnd, FindStart;
    if FindStart(s) < |s| {
      var i := FindStart(s);
      var p, e, rest := RedactUnfolds(s);
      FirstMatchOfOutput(s, i, p, e, rest, Redact(s));
      RedactIdempotent(s[e..]);
    }
  }

  // ---------------------------------------------------------------- what redaction keeps and hides

  /** The value of a match: what stands behind its separator. */
  function ValueOf(m: string): string {
    if FirstSep(m) < |m| then m[FirstSep(m) + 1..] else ""
  }

  /** The values of all matches, left to right. */
  function Values(s: string): seq<string>
    decreases |s|
  {
    match FirstMatch(s)
    case None => []
    case Some(f) => [ValueOf(f.matched)] + Values(f.rest)
  }

  /** The text outside values and separators, cut at the matches. */
  function Outside(s: string): seq<string>
    decreases |s|
  {
    match FirstMatch(s)
    case None => [s]
    case Some(f) => [f.prefix + f.matched[..FirstSep(f.matched)]] + Outside(f.rest)
  }

  /** What the views see of a match, in positions of the whole text. */
  lemma ViewsOfMatch(s: string, i: nat, p: nat, e: nat)
    requires i <= p < e <= |s| && p == i + FirstSep(s[i..])
    ensures ValueOf(s[i..e]) == s[p + 1..e]
    ensures FirstSep(s[i..e]) == p - i < |s[i..e]|
    ensures s[..i] + s[i..e][..p - i] == s[..p]
  {
    hide FirstSep;
    SepInMatch(s, i, p, e);
    assert s[i..e][p - i + 1..] == s[p + 1..e];
    assert s[i..e][..p - i] == s[i..p];
    assert s[..i] + s[i..p] == s[..p];
  }

  /**
   * Every match left in the output has exactly the marker as its value, there are as many as
   * before, and the text around them, keywords included, is unchanged.
   */
  lemma {:induction false} RedactHidesValuesOnly(s: string)
    ensures Outside(Redact(s)) == Outside(s)
    ensures |Values(Redact(s))| == |Values(s)|
    ensures forall v :: v in Values(Redact(s)) ==> v == MARKER
    decreases |s|
  {
    hide MatchEnd, FindStart, FirstSep, ReplaceMatch, FirstMatch, ValueOf, Redact, Values, Outside;
    if FindStart(s) == |s| {
      NothingFound(s);
    } else {
      var i := FindStart(s);
      var p, e, rest := RedactUnfolds(s);
      var out, f := Redact(s), p + 1 + |MARKER|;
      FirstMatchOfOutput(s, i, p, e, rest, out);
      assert out[f..] == rest;
      RedactHidesValuesOnly(s[e..]);
      ViewsStep(s, i, p, e, s[p + 1..e], s[..p], s[e..]);
      ViewsStep(out, i, p, f, MARKER, s[..p], rest);
    }
  }

  lemma NothingFound(s: string)
    requires FindStart(s) == |s|
    ensures FirstMatch(s).None? && Redact(s) == s && Values(s) == [] && Outside(s) == [s]
  {
    hide FindStart, MatchEnd;
  }

  lemma ViewsStep(s: string, i: nat, p: nat, e: nat, value: string, front: string, rest: string)
    requires i == FindStart(s) < |s| && MatchEnd(s[i..]) == Some(e - i)
    requires i <= p < e <= |s| && p == i + FirstSep(s[i..])
    requires value == s[p + 1..e] && front == s[..p] && rest == s[e..]
    ensures Values(s) == [value] + Values(rest)
    ensures Outside(s) == [front] + Outside(rest)
  {
    hide FindStart, MatchEnd, FirstSep, ValueOf, Redact, Values, Outside, FirstMatch;
    RedactStep(s, e);
    ViewsOfMatch(s, i, p, e);
    ViewsUnfold(s, Found(s[..i], s[i..e], rest), value, front);
  }

  lemma ViewsUnfold(s: string, f: Found, value: string, front: string)
    requires FirstMatch(s) == Some(f)
    requires value == ValueOf(f.matched) && front == f.prefix + f.matched[..FirstSep(f.matched)]
    ensures Values(s) == [value] + Values(f.rest)
    ensures Outside(s) == [front] + Outside(f.rest)
  {
    hide FirstMatch, ValueOf, FirstSep;
  }

  // ---------------------------------------------------------------- lines

  /** Something other than \s follows on the line of s[q], or nothing but line feeds follows that line. */
  predicate ValueStays(s: string, q: nat)
    requires q <= |s|
  {
    || (exists j :: q <= j < LineEnd(s, q) && !IsReSpace(s[j]))
    || (forall j :: LineEnd(s, q) <= j < |s| ==> s[j] == '\n')
  }

  /**
   * The package promises line-bounded redaction, but \s* also matches line feeds. The value of a
   * match stays on the line of its separator exactly under ValueStays.
   */
  lemma StaysOnLine(s: string, q: nat)
    requires q <= |s| && ValueEnd(s, q).Some?
    ensures ValueEnd(s, q).value == LineEnd(s, q) <==> ValueStays(s, q)
  {
    var n := SpaceRun(s[q..]);
    assert forall j :: q <= j < |s| ==> s[q..][j - q] == s[j];
    BacktrackStops(s, q, n);
    LineEndOf(s, q);
  }

  /** Where the backtracking settles: the last non-line-feed the greedy run can reach. */
  lemma {:induction false} BacktrackStops(s: string, q: nat, m: nat)
    requires q + m <= |s| && Backtrack(s, q, m).Some?
    ensures exists j :: q <= j <= q + m && j < |s| && s[j] != '\n' && Backtrack(s, q, m).value == LineEnd(s, j)
                        && forall k :: j < k <= q + m && k < |s| ==> s[k] == '\n'
    decreases m
  {
    if q + m < |s| && s[q + m] != '\n' {
      assert LineEnd(s, q + m) == LineEnd(s, q + m + 1);
    } else {
      BacktrackStops(s, q, m - 1);
    }
  }

  lemma LineEndOf(s: string, q: nat)
    requires q <= |s|
    ensures forall j :: q <= j <= LineEnd(s, q) ==> LineEnd(s, j) == LineEnd(s, q)
    ensures forall j :: LineEnd(s, q) < j <= |s| ==> LineEnd(s, j) > LineEnd(s, q)
  {
  }

  /**
   * The whole match. The expression may pass a line feed before the separator too, so a match stays
   * on one line exactly when its head does and its value stays on the separator's line.
   */
  lemma MatchOnOneLine(s: string, e: nat)
    requires MatchEnd(s) == Some(e)
    ensures '\n' !in s[..e] <==> '\n' !in s[..FirstSep(s) + 1] && ValueStays(s, FirstSep(s) + 1)
  {
    hide IsKeyword, FirstSep, ValueEnd, TrimReSpace, LineEnd, ValueStays;
    var q := FirstSep(s) + 1;
    StaysOnLine(s, q);
    LineEndBefore(s, q, e);
    BreakFree(s, q, e);
  }

  lemma BreakFree(s: string, q: nat, e: nat)
    requires q < e <= |s|
    ensures '\n' !in s[..e] <==> '\n' !in s[..q] && e <= LineEnd(s, q)
  {
    hide LineEnd;
    assert forall j :: 0 <= j < e ==> s[..e][j] == s[j];
    assert forall j :: 0 <= j < q ==> s[..q][j] == s[j];
    if LineEnd(s, q) < e {
      assert s[..e][LineEnd(s, q)] == '\n';
    }
  }

  lemma LineEndBefore(s: string, q: nat, e: nat)
    requires q < e <= |s| && (e < |s| ==> s[e] == '\n')
    ensures LineEnd(s, q) <= e
  {
  }

  /** A value on the next line: the match takes the line feed with it. */
  lemma MatchCrossesLine()
    ensures Redact("token:\nx") == "token=" + MARKER
  {
    hide Redact, MatchEnd, FirstSep;
    TokenMatches();
    assert "token:\nx"[..5] == "token";
    WholeMatch("token:\nx", 5);
  }

  /** A line feed before the separator: the head spans two lines, and the second one is rewritten. */
  lemma HeadCrossesLine()
    ensures MatchEnd("token\n:x") == Some(8) && Redact("token\n:x") == "token\n=" + MARKER
  {
    hide Redact, MatchEnd, FirstSep;
    var s := "token\n:x";
    GapMatches(s);
    assert s[..6] == "token\n";
    WholeMatch(s, 6);
  }

  lemma GapMatches(s: string)
    requires s == "token\n:x"
    ensures MatchEnd(s) == Some(8) && FirstSep(s) == 6
  {
    hide IsKeyword, FirstSep, TrimReSpace, ValueEnd;
    FirstSepIs(s, 6);
    assert s[..6] == "token\n" && "token" <= "token\n";
    TrimReSpaceIs("token\n", "token");
    TokenIsKeyword();
    MarkerValue(s, 7, 8);
  }

  lemma WholeMatch(s: string, p: nat)
    requires MatchEnd(s) == Some(|s|) && p == FirstSep(s) < |s|
    ensures Redact(s) == s[..p] + "=" + MARKER
  {
    hide FindStart, MatchEnd, FirstSep, ReplaceMatch, Redact;
    assert s[0..] == s;
    FindStartIs(s, 0);
    RedactStep(s, |s|);
    CallbackKeepsKeyword(s, 0, p, |s|);
    RedactEmpty();
    assert s[|s|..] == "";
  }

  lemma RedactEmpty()
    ensures Redact("") == ""
  {
  }

  lemma TokenMatches()
    ensures MatchEnd("token:\nx") == Some(8) && FirstSep("token:\nx") == 5
  {
    var s := "token:\nx";
    hide IsKeyword, FirstSep, TrimReSpace, ValueEnd;
    FirstSepIs(s, 5);
    assert s[..5] == "token";
    TrimReSpaceIs("token", "token");
    TokenIsKeyword();
    ValueOnNextLine(s);
  }

  lemma TokenIsKeyword()
    ensures IsKeyword("token")
  {
    assert KEYWORDS[2] == "token" && Spells("token", KEYWORDS[2]);
  }

  lemma ValueOnNextLine(s: string)
    requires |s| == 8 && s[6] == '\n' && s[7] == 'x'
    ensures ValueEnd(s, 6) == Some(8)
  {
    assert s[6..] == "\nx" && SpaceRun("\nx") == 1 by {
      assert "\nx"[1..] == "x";
    }
    hide SpaceRun;
    assert LineEnd(s, 8) == 8;
  }
}
