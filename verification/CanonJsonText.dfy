/** Which of the spellings a decoder accepts the printer writes for a string. */
module CanonJsonText {
  import opened Wrappers
  import opened Text
  import opened CanonJson
  import opened CanonJsonDecode

  // ---------------------------------------------------------------- character by character

  /** The printed text is that of the characters, one after another. */
  lemma {:induction false} EscapeConcat(a: string, b: string)
    ensures EscapeAll(a + b) == EscapeAll(a) + EscapeAll(b)
  {
    hide EscapeChar;
    if a == "" {
      assert a + b == b;
    } else {
      assert (a + b)[1..] == a[1..] + b;
      EscapeConcat(a[1..], b);
      var e, x, y := EscapeChar(a[0]), EscapeAll(a[1..]), EscapeAll(b);
      assert e + (x + y) == e + x + y;
    }
  }

  lemma EscapeOne(c: char)
    ensures EscapeAll([c]) == EscapeChar(c)
  {
    assert [c][1..] == "";
  }

  /** The characters encoding/json escapes although JSON would take them as they are. */
  predicate IsHtmlEscaped(c: char) {
    c == '<' || c == '>' || c == '&' || c == '\U{2028}' || c == '\U{2029}'
  }

  predicate IsControl(c: char) {
    (c as int) < 0x20
  }

  predicate IsPlain(c: char) {
    c != '"' && c != '\\' && !IsControl(c) && !IsHtmlEscaped(c)
  }

  /** A string is printed as it is exactly when it is free of quotes, backslashes, controls and HTML escapes. */
  lemma {:induction false} PlainText(s: string)
    ensures EscapeAll(s) == s <==> forall c :: c in s ==> IsPlain(c)
    ensures |EscapeAll(s)| >= |s|
  {
    if s != "" {
      PlainText(s[1..]);
      assert s == [s[0]] + s[1..];
      OneCharacter(s[0]);
      hide EscapeChar, IsPlain;
      if EscapeAll(s) == s {
        SamePieces(EscapeChar(s[0]), EscapeAll(s[1..]), [s[0]], s[1..]);
      }
    }
  }

  lemma SamePieces(a: string, b: string, c: string, d: string)
    requires a + b == c + d && |a| >= |c| && |b| >= |d|
    ensures a == c && b == d
  {
    assert |a + b| == |c + d|;
    assert a == (a + b)[..|a|] && c == (c + d)[..|c|] && b == (a + b)[|a|..] && d == (c + d)[|c|..];
  }

  lemma OneCharacter(c: char)
    ensures EscapeChar(c) == [c] <==> IsPlain(c)
    ensures |EscapeChar(c)| >= 1
  {
  }

  // The two-character escapes.
  const SHORT := [('"', '"'), ('\\', '\\'), ('\U{08}', 'b'), ('\U{0C}', 'f'), ('\n', 'n'), ('\r', 'r'), ('\t', 't')]

  predicate HasShort(c: char) {
    exists i :: 0 <= i < |SHORT| && SHORT[i].0 == c
  }

  /** Seven characters take a backslash and a letter, each its own. */
  lemma ShortForms(i: nat)
    requires i < |SHORT|
    ensures EscapeAll([SHORT[i].0]) == ['\\', SHORT[i].1]
  {
    EscapeOne(SHORT[i].0);
  }

  predicate IsLowerHex(d: char) {
    '0' <= d <= '9' || 'a' <= d <= 'f'
  }

  function Digit(d: char): int
    requires IsLowerHex(d)
  {
    if d <= '9' then d as int - '0' as int else d as int - 'a' as int + 10
  }

  /** e is the long form of c: a backslash, a u and four lower-case hexadecimal digits. */
  predicate IsLongForm(e: string, c: char) {
    && |e| == 6 && e[0] == '\\' && e[1] == 'u'
    && (forall i :: 2 <= i < 6 ==> IsLowerHex(e[i]))
    && ((Digit(e[2]) * 16 + Digit(e[3])) * 16 + Digit(e[4])) * 16 + Digit(e[5]) == c as int
  }

  /** Every other character that is not plain takes the long form. */
  lemma LongForms(c: char)
    requires !IsPlain(c) && !HasShort(c)
    ensures IsLongForm(EscapeAll([c]), c)
  {
    EscapeOne(c);
    NoShort(c);
    var n := c as int;
    assert n < 0x10000 && EscapeChar(c) == UnicodeEscape(n);
    HexDigits(n);
    hide EscapeChar;
    LowerHexDigit(n / 0x1000);
    LowerHexDigit(n / 0x100 % 16);
    LowerHexDigit(n / 16 % 16);
    LowerHexDigit(n % 16);
    LongFormOf(n / 0x1000, n / 0x100 % 16, n / 16 % 16, n % 16, c);
  }

  lemma NoShort(c: char)
    requires !HasShort(c)
    ensures c != '"' && c != '\\' && c != '\U{08}' && c != '\U{0C}' && c != '\n' && c != '\r' && c != '\t'
  {
    assert SHORT[0].0 == '"' && SHORT[1].0 == '\\' && SHORT[2].0 == '\U{08}' && SHORT[3].0 == '\U{0C}';
    assert SHORT[4].0 == '\n' && SHORT[5].0 == '\r' && SHORT[6].0 == '\t';
  }

  lemma LowerHexDigit(n: nat)
    requires n < 16
    ensures IsLowerHex(HexDigit(n)) && Digit(HexDigit(n)) == n
  {
  }

  lemma LongFormOf(a: nat, b: nat, c: nat, d: nat, x: char)
    requires a < 16 && b < 16 && c < 16 && d < 16
    requires a * 0x1000 + b * 0x100 + c * 16 + d == x as int
    ensures IsLongForm(['\\', 'u', HexDigit(a), HexDigit(b), HexDigit(c), HexDigit(d)], x)
  {
    LowerHexDigit(a);
    LowerHexDigit(b);
    LowerHexDigit(c);
    LowerHexDigit(d);
    hide HexDigit, IsLowerHex, Digit;
    var e := ['\\', 'u', HexDigit(a), HexDigit(b), HexDigit(c), HexDigit(d)];
    assert e[2] == HexDigit(a) && e[3] == HexDigit(b) && e[4] == HexDigit(c) && e[5] == HexDigit(d);
  }

  // ---------------------------------------------------------------- the shortest text

  predicate NoHtml(s: string) {
    forall c :: c in s ==> !IsHtmlEscaped(c)
  }

  lemma PlainFirst(t: string)
    requires t != "" && t[0] != '"' && t[0] != '\\' && ReadString(t).Got?
    ensures var s := ReadString(t).value;
            s != "" && s[0] == t[0] && !IsControl(t[0]) && ReadString(t[1..]) == Got(s[1..], ReadString(t).rest)
  {
    var r := ReadString(t[1..]);
    assert ReadString(t) == Prepend(t[0], r);
    hide ReadString;
    assert r.Got? && ([t[0]] + r.value)[1..] == r.value;
  }

  lemma EscapedFirst(t: string)
    requires t != "" && t[0] == '\\' && ReadString(t).Got?
    ensures ReadEscape(t[1..]).Got?
    ensures var s, e := ReadString(t).value, ReadEscape(t[1..]);
            s != "" && s[0] == e.value && ReadString(e.rest) == Got(s[1..], ReadString(t).rest)
  {
    hide ReadEscape;
    var e := ReadEscape(t[1..]);
    var r := ReadString(e.rest);
    assert ReadString(t) == Prepend(e.value, r);
    hide ReadString;
    assert r.Got? && ([e.value] + r.value)[1..] == r.value;
  }

  lemma EscapeLength(t: string)
    requires ReadEscape(t).Got?
    ensures var e := ReadEscape(t);
            |e.rest| < |t| && t[|t| - |e.rest|..] == e.rest
            && (!IsHtmlEscaped(e.value) ==> |t| - |e.rest| + 1 >= |EscapeChar(e.value)|)
  {
    hide HexValue;
    if t[0] == 'u' {
      assert ReadEscape(t) == ReadUnicode(t[1..]);
      assert ReadEscape(t).rest == t[1..][4..] == t[5..];
    } else {
      assert ReadEscape(t).rest == t[1..];
    }
  }

  /** No spelling of a string takes less than the printed one. */
  lemma {:induction false} NoShorterString(t: string)
    requires ReadString(t).Got? && NoHtml(ReadString(t).value)
    ensures |t| - |ReadString(t).rest| >= |EscapeAll(ReadString(t).value)| + 1
    decreases |t|
  {
    var s := ReadString(t).value;
    if t[0] == '"' {
    } else if t[0] != '\\' {
      PlainFirst(t);
      OneCharacter(t[0]);
      hide ReadString, EscapeChar;
      assert s[0] in s;
      NoShorterString(t[1..]);
    } else {
      EscapedFirst(t);
      hide ReadString, EscapeChar, ReadEscape;
      EscapeLength(t[1..]);
      assert s[0] in s;
      NoShorterString(ReadEscape(t[1..]).rest);
    }
  }

  function LeanChar(c: char): string {
    if IsHtmlEscaped(c) then [c] else EscapeChar(c)
  }

  /** The string's text with the HTML escapes left out: the form of section 3.2.2.2 of RFC 8785. */
  function Lean(s: string): string {
    if s == "" then "" else LeanChar(s[0]) + Lean(s[1..])
  }

  lemma {:induction false} LeanReadBack(s: string, t: string)
    ensures ReadString(Lean(s) + "\"" + t) == Got(s, t)
  {
    hide ReadString, LeanChar;
    if s == "" {
      assert Lean(s) + "\"" + t == "\"" + t;
      EndOfString(t);
    } else {
      var first, rest := LeanChar(s[0]), Lean(s[1..]);
      LeanReadBack(s[1..], t);
      LeanFirst(s[0], rest + "\"" + t);
      assert Lean(s) == first + rest;
      hide Lean;
      Shift(first, rest, "\"", t);
      assert s == [s[0]] + s[1..];
    }
  }

  lemma Shift(a: string, b: string, c: string, d: string)
    ensures a + b + c + d == a + (b + c + d)
  {
  }

  lemma EndOfString(t: string)
    ensures ReadString("\"" + t) == Got("", t)
  {
    assert ("\"" + t)[1..] == t;
  }

  lemma LeanFirst(c: char, tail: string)
    ensures ReadString(LeanChar(c) + tail) == Prepend(c, ReadString(tail))
  {
    hide ReadString, EscapeChar;
    if IsHtmlEscaped(c) {
      PlainReadBack(c, tail);
    } else {
      EscapeReadBack(c, tail);
    }
  }

  lemma {:induction false} LeanIsShorter(s: string)
    ensures |Lean(s)| <= |EscapeAll(s)| && (!NoHtml(s) ==> |Lean(s)| < |EscapeAll(s)|)
  {
    if s != "" {
      LeanIsShorter(s[1..]);
      HtmlIsLong(s[0]);
      hide EscapeChar;
      assert s == [s[0]] + s[1..];
    }
  }

  lemma HtmlIsLong(c: char)
    ensures |EscapeChar(c)| > 1 || !IsHtmlEscaped(c)
    ensures |EscapeChar(c)| >= 1
  {
  }

  /** The printed text is the RFC's exactly when there is nothing to escape for HTML. */
  lemma {:induction false} RfcString(s: string)
    ensures EscapeAll(s) == Lean(s) <==> NoHtml(s)
  {
    LeanIsShorter(s);
    if NoHtml(s) && s != "" {
      hide EscapeChar, IsHtmlEscaped;
      assert s == [s[0]] + s[1..] && s[0] in s;
      RfcString(s[1..]);
    }
  }

  /** No text that decodes to s is shorter than its canonical form. */
  ghost predicate Shortest(s: string) {
    forall t :: Decode(t) == Some(Str(s)) ==> |t| >= |Canon(Str(s))|
  }

  /** The canonical form of a string is a shortest text that decodes to it exactly when it has no HTML escape. */
  lemma ShortestText(s: string)
    ensures Shortest(s) <==> NoHtml(s)
  {
    hide ReadString, EscapeAll, Lean, Canon, Decode;
    QuotedLength(s);
    if NoHtml(s) {
      forall t | Decode(t) == Some(Str(s)) ensures |t| >= |Canon(Str(s))| {
        OnlyQuotedIsString(t);
        NoShorterString(t[1..]);
      }
    } else {
      var t := "\"" + Lean(s) + "\"";
      LeanIsShorter(s);
      LeanDecodes(s);
      assert |t| < |Canon(Str(s))|;
    }
  }

  lemma QuotedLength(s: string)
    ensures |Canon(Str(s))| == |EscapeAll(s)| + 2
  {
    hide EscapeAll;
  }

  lemma LeanDecodes(s: string)
    ensures Decode("\"" + Lean(s) + "\"") == Some(Str(s))
  {
    hide ReadString, Lean;
    LeanReadBack(s, "");
    var t := "\"" + Lean(s) + "\"";
    assert t[1..] == Lean(s) + "\"" + "";
  }

  lemma OnlyQuotedIsString(t: string)
    requires Decode(t).Some? && Decode(t).value.Str?
    ensures t != "" && t[0] == '"' && ReadString(t[1..]) == Got(Decode(t).value.s, "")
  {
    hide ReadString;
  }
}
