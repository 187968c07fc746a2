/** The string functions the parsers take from Go's strings and unicode packages, on code points. */
module Text {

  /** unicode.IsSpace: what strings.Fields splits on and strings.TrimSpace removes. */
  predicate IsSpace(c: char) {
    '\t' <= c <= '\r' || c == ' ' || c == '\U{85}' || c == '\U{A0}' || c == '\U{1680}'
    || '\U{2000}' <= c <= '\U{200A}' || c == '\U{2028}' || c == '\U{2029}' || c == '\U{202F}'
    || c == '\U{205F}' || c == '\U{3000}'
  }

  /** The cutset " \t". */
  predicate IsBlank(c: char) {
    c == ' ' || c == '\t'
  }

  predicate AllSpace(s: string) {
    forall i :: 0 <= i < |s| ==> IsSpace(s[i])
  }

  predicate AllBlank(s: string) {
    forall i :: 0 <= i < |s| ==> IsBlank(s[i])
  }

  predicate NoSpace(s: string) {
    forall i :: 0 <= i < |s| ==> !IsSpace(s[i])
  }

  // ---------------------------------------------------------------- searching

  /** strings.IndexByte. */
  function IndexOf(s: string, c: char): (i: int)
    ensures -1 <= i < |s|
    ensures i >= 0 ==> s[i] == c && c !in s[..i]
    ensures i < 0 ==> c !in s
  {
    if s == "" then -1
    else if s[0] == c then 0
    else
      var i := IndexOf(s[1..], c);
      if i < 0 then -1 else i + 1
  }

  lemma {:induction false} IndexOfConcat(a: string, b: string, c: char)
    requires c !in a
    ensures IndexOf(a + b, c) == if IndexOf(b, c) < 0 then -1 else |a| + IndexOf(b, c)
  {
    if a == "" {
      assert a + b == b;
    } else {
      assert (a + b)[1..] == a[1..] + b;
      IndexOfConcat(a[1..], b, c);
    }
  }

  /** strings.HasPrefix. */
  predicate StartsWith(t: string, p: string) {
    |p| <= |t| && t[..|p|] == p
  }

  // ---------------------------------------------------------------- trimming

  function TrimRightBlank(s: string): (r: string)
    ensures r <= s && AllBlank(s[|r|..])
    ensures r != "" ==> !IsBlank(r[|r| - 1])
  {
    if s != "" && IsBlank(s[|s| - 1]) then TrimRightBlank(s[..|s| - 1]) else s
  }

  function TrimLeftBlank(s: string): (r: string)
    ensures |r| <= |s| && r == s[|s| - |r|..] && AllBlank(s[..|s| - |r|])
    ensures r != "" ==> !IsBlank(r[0])
  {
    if s != "" && IsBlank(s[0]) then TrimLeftBlank(s[1..]) else s
  }

  function TrimRightSpace(s: string): (r: string)
    ensures r <= s && AllSpace(s[|r|..])
    ensures r != "" ==> !IsSpace(r[|r| - 1])
  {
    if s != "" && IsSpace(s[|s| - 1]) then TrimRightSpace(s[..|s| - 1]) else s
  }

  function TrimLeftSpace(s: string): (r: string)
    ensures |r| <= |s| && r == s[|s| - |r|..] && AllSpace(s[..|s| - |r|])
    ensures r != "" ==> !IsSpace(r[0])
  {
    if s != "" && IsSpace(s[0]) then TrimLeftSpace(s[1..]) else s
  }

  function TrimSpace(s: string): string {
    TrimRightSpace(TrimLeftSpace(s))
  }

  lemma TrimSpaceEmpty(s: string)
    ensures TrimSpace(s) == "" <==> AllSpace(s)
  {
    var t := TrimLeftSpace(s);
    var n := |s| - |t|;
    assert t[0..] == t;
    assert s == s[..n] + t;
    assert AllSpace(s) ==> AllSpace(t);
  }

  lemma {:induction false} TrimLeftSkips(a: string, s: string)
    requires AllSpace(a)
    ensures TrimLeftSpace(a + s) == TrimLeftSpace(s)
  {
    if a == "" {
      assert a + s == s;
    } else {
      assert (a + s)[1..] == a[1..] + s;
      TrimLeftSkips(a[1..], s);
    }
  }

  lemma {:induction false} TrimRightSkips(s: string, b: string)
    requires AllSpace(b)
    ensures TrimRightSpace(s + b) == TrimRightSpace(s)
  {
    if b == "" {
      assert s + b == s;
    } else {
      assert (s + b)[..|s + b| - 1] == s + b[..|b| - 1];
      TrimRightSkips(s, b[..|b| - 1]);
    }
  }

  lemma {:induction false} TrimLeftKeepsTail(s: string, b: string)
    requires !AllSpace(s)
    ensures TrimLeftSpace(s + b) == TrimLeftSpace(s) + b
  {
    assert s != "" && (s + b)[0] == s[0];
    if IsSpace(s[0]) {
      assert (s + b)[1..] == s[1..] + b;
      assert s == [s[0]] + s[1..];
      TrimLeftKeepsTail(s[1..], b);
    }
  }

  /** Spaces on either side make no difference. */
  lemma TrimSpaceAround(a: string, s: string, b: string)
    requires AllSpace(a) && AllSpace(b)
    ensures TrimSpace(a + s + b) == TrimSpace(s)
  {
    hide TrimLeftSpace, TrimRightSpace, IsSpace;
    assert a + s + b == a + (s + b);
    TrimLeftSkips(a, s + b);
    if AllSpace(s) {
      hide TrimSpace;
      TrimSpaceEmpty(s);
      TrimSpaceEmpty(a + s + b);
    } else {
      TrimLeftKeepsTail(s, b);
      TrimRightSkips(TrimLeftSpace(s), b);
    }
  }

  // ---------------------------------------------------------------- fields

  function WordLength(s: string): (n: nat)
    ensures n <= |s| && NoSpace(s[..n]) && (n < |s| ==> IsSpace(s[n]))
  {
    if s == "" || IsSpace(s[0]) then 0 else 1 + WordLength(s[1..])
  }

  /** strings.Fields. */
  function Fields(s: string): seq<string>
    decreases |s|
  {
    if s == "" then []
    else if IsSpace(s[0]) then Fields(s[1..])
    else [s[..WordLength(s)]] + Fields(s[WordLength(s)..])
  }

  lemma FieldsOfNothing()
    ensures Fields("") == []
  {
  }

  predicate IsWord(w: string) {
    w != "" && NoSpace(w)
  }

  lemma {:induction false} FieldsAreWords(s: string)
    ensures forall w :: w in Fields(s) ==> IsWord(w)
    decreases |s|
  {
    if s == "" {
    } else if IsSpace(s[0]) {
      FieldsAreWords(s[1..]);
    } else {
      FieldsAreWords(s[WordLength(s)..]);
    }
  }

  lemma {:induction false} WordLengthAppend(a: string, b: string)
    requires b != "" && IsSpace(b[0])
    ensures WordLength(a + b) == WordLength(a)
  {
    if a == "" {
      assert a + b == b;
    } else {
      assert (a + b)[1..] == a[1..] + b;
      if !IsSpace(a[0]) {
        WordLengthAppend(a[1..], b);
      }
    }
  }

  /** A space separates the words on its two sides. */
  lemma {:induction false} FieldsSplit(a: string, b: string)
    requires b != "" && IsSpace(b[0])
    ensures Fields(a + b) == Fields(a) + Fields(b)
    decreases |a|
  {
    if a == "" {
      assert a + b == b;
    } else if IsSpace(a[0]) {
      assert (a + b)[1..] == a[1..] + b;
      FieldsSplit(a[1..], b);
    } else {
      WordLengthAppend(a, b);
      var n := WordLength(a);
      assert (a + b)[..n] == a[..n] && (a + b)[n..] == a[n..] + b;
      FieldsSplit(a[n..], b);
    }
  }

  lemma {:induction false} FieldsOfSpaces(a: string, b: string)
    requires AllSpace(a)
    ensures Fields(a + b) == Fields(b)
  {
    if a == "" {
      assert a + b == b;
    } else {
      assert (a + b)[1..] == a[1..] + b;
      FieldsOfSpaces(a[1..], b);
    }
  }

  lemma FieldsTrailingSpaces(a: string, b: string)
    requires AllSpace(b)
    ensures Fields(a + b) == Fields(a)
  {
    if b == "" {
      assert a + b == a;
    } else {
      FieldsSplit(a, b);
      FieldsOfSpaces(b, "");
      assert b + "" == b;
    }
  }

  lemma {:induction false} WholeWord(w: string)
    requires NoSpace(w)
    ensures WordLength(w) == |w|
  {
    if w != "" {
      WholeWord(w[1..]);
    }
  }

  lemma FieldsOfWord(w: string)
    requires IsWord(w)
    ensures Fields(w) == [w]
  {
    WholeWord(w);
    assert w[..|w|] == w && w[|w|..] == "";
    FieldsOfNothing();
  }

  predicate IsGap(s: string) {
    s != "" && AllSpace(s)
  }

  /** A word, the gap behind it, and the rest. */
  lemma WordThen(w: string, gap: string, rest: string)
    requires IsWord(w) && IsGap(gap)
    ensures Fields(w + gap + rest) == [w] + Fields(rest)
  {
    hide Fields;
    FieldsSplit(w, gap + rest);
    FieldsOfWord(w);
    FieldsOfSpaces(gap, rest);
    assert w + (gap + rest) == w + gap + rest;
  }

  lemma {:induction false} FieldsEmpty(s: string)
    ensures Fields(s) == [] <==> AllSpace(s)
    decreases |s|
  {
    if s != "" && IsSpace(s[0]) {
      FieldsEmpty(s[1..]);
      assert s == [s[0]] + s[1..];
    }
  }

  lemma FieldsTrimRight(s: string)
    ensures Fields(TrimRightBlank(s)) == Fields(s)
  {
    var r := TrimRightBlank(s);
    FieldsTrailingSpaces(r, s[|r|..]);
    assert s == r + s[|r|..];
  }

  lemma FieldsTrimLeft(s: string)
    ensures Fields(TrimLeftBlank(s)) == Fields(s)
  {
    hide Fields;
    var r := TrimLeftBlank(s);
    var n := |s| - |r|;
    hide TrimLeftBlank;
    FieldsOfSpaces(s[..n], r);
    assert s == s[..n] + r;
  }

  lemma FieldsTrimLeftSpace(s: string)
    ensures Fields(TrimLeftSpace(s)) == Fields(s)
  {
    hide Fields;
    var t := TrimLeftSpace(s);
    FieldsOfSpaces(s[..|s| - |t|], t);
    assert s == s[..|s| - |t|] + t;
  }

  lemma FieldsTrimRightSpace(s: string)
    ensures Fields(TrimRightSpace(s)) == Fields(s)
  {
    hide Fields;
    var r := TrimRightSpace(s);
    var tail := s[|r|..];
    assert s == r + tail;
    FieldsTrailingSpaces(r, tail);
  }

  lemma FieldsTrimSpace(s: string)
    ensures Fields(TrimSpace(s)) == Fields(s)
  {
    FieldsTrimLeftSpace(s);
    FieldsTrimRightSpace(TrimLeftSpace(s));
  }

  /** The 25 characters that separate words. */
  predicate Separates(n: int) {
    n in {9, 10, 11, 12, 13, 32, 0x85, 0xA0, 0x1680, 0x2000, 0x2001, 0x2002, 0x2003, 0x2004, 0x2005, 0x2006,
          0x2007, 0x2008, 0x2009, 0x200A, 0x2028, 0x2029, 0x202F, 0x205F, 0x3000}
  }

  /** One character between two words: either it separates them, or the three are one word. */
  lemma CharacterBetween(a: string, c: char, b: string)
    requires IsWord(a) && IsWord(b)
    ensures Fields(a + [c] + b) == if Separates(c as int) then [a, b] else [a + [c] + b]
  {
    hide Fields;
    SpaceTable(c);
    hide IsSpace, Separates;
    if IsSpace(c) {
      WordThen(a, [c], b);
      FieldsOfWord(b);
    } else {
      assert IsWord(a + [c] + b);
      FieldsOfWord(a + [c] + b);
    }
  }

  lemma SpaceTable(c: char)
    ensures IsSpace(c) <==> Separates(c as int)
  {
  }

  // ---------------------------------------------------------------- joining

  /** strings.Join(words, " "). */
  function Join(words: seq<string>): string {
    if words == [] then ""
    else if |words| == 1 then words[0]
    else words[0] + " " + Join(words[1..])
  }

  /** Splitting what was joined gives the words back: the join of parser tokens is injective. */
  lemma {:induction false} FieldsOfJoin(words: seq<string>)
    requires forall w :: w in words ==> IsWord(w)
    ensures Fields(Join(words)) == words
  {
    hide Fields, IsWord;
    if words == [] {
      FieldsOfNothing();
    } else if |words| == 1 {
      FieldsOfWord(words[0]);
      assert words == [words[0]];
    } else {
      FieldsOfJoin(words[1..]);
      var rest := " " + Join(words[1..]);
      assert words[0] + " " + Join(words[1..]) == words[0] + rest;
      FieldsSplit(words[0], rest);
      FieldsOfWord(words[0]);
      FieldsOfSpaces(" ", Join(words[1..]));
      assert words == [words[0]] + words[1..];
    }
  }

  /** One blank between any two neighbours. */
  lemma {:induction false} JoinConcat(a: seq<string>, b: seq<string>)
    requires a != [] && b != []
    ensures Join(a + b) == Join(a) + " " + Join(b)
    ensures |a| == 1 ==> Join(a) == a[0]
  {
    if |a| == 1 {
      assert (a + b)[1..] == b;
    } else {
      assert (a + b)[1..] == a[1..] + b;
      JoinConcat(a[1..], b);
      assert Join(a + b) == a[0] + " " + Join(a[1..] + b);
      Glued(a[0] + " ", Join(a[1..]), " ", Join(b));
    }
  }

  lemma Glued(a: string, b: string, c: string, d: string)
    ensures a + (b + c + d) == a + b + c + d
  {
  }

  lemma JoinInjective(a: seq<string>, b: seq<string>)
    requires forall w :: w in a ==> IsWord(w)
    requires forall w :: w in b ==> IsWord(w)
    ensures Join(a) == Join(b) <==> a == b
  {
    FieldsOfJoin(a);
    FieldsOfJoin(b);
  }

  // ---------------------------------------------------------------- order

  /** The order of Go's string comparison; on code points it is the order of their UTF-8 bytes. */
  predicate Less(a: string, b: string) {
    b != "" && (a == "" || a[0] < b[0] || (a[0] == b[0] && Less(a[1..], b[1..])))
  }

  predicate AtMost(a: string, b: string) {
    !Less(b, a)
  }

  lemma {:induction false} LessIrreflexive(a: string)
    ensures !Less(a, a)
  {
    if a != "" { LessIrreflexive(a[1..]); }
  }

  lemma {:induction false} LessTransitive(a: string, b: string, c: string)
    requires Less(a, b) && Less(b, c)
    ensures Less(a, c)
  {
    if a != "" && a[0] == b[0] && b[0] == c[0] {
      LessTransitive(a[1..], b[1..], c[1..]);
    }
  }

  lemma {:induction false} LessTotal(a: string, b: string)
    ensures Less(a, b) || Less(b, a) || a == b
  {
    if a != "" && b != "" && a[0] == b[0] {
      LessTotal(a[1..], b[1..]);
      assert a == [a[0]] + a[1..] && b == [b[0]] + b[1..];
    }
  }

  lemma LessAsymmetric(a: string, b: string)
    requires Less(a, b)
    ensures !Less(b, a)
  {
    if Less(b, a) {
      LessTransitive(a, b, a);
      LessIrreflexive(a);
    }
  }

  lemma AtMostTransitive(a: string, b: string, c: string)
    requires AtMost(a, b) && AtMost(b, c)
    ensures AtMost(a, c)
  {
    if Less(c, a) {
      LessTotal(a, b);
      if a != b { LessTransitive(c, a, b); }
    }
  }
}
