/** The os-release(5) parser: KEY=VALUE lines, three quoting forms, later assignments win. */
module OsRelease {
  import opened Wrappers
  import opened Text

  datatype Assignment = Assignment(key: string, value: string)

  /** The characters a backslash escapes inside double quotes. */
  predicate IsEscapable(c: char) {
    c == '"' || c == '\'' || c == '\\' || c == '$' || c == '`'
  }

  /** A value with its escapes expanded; an unknown escape keeps its backslash. */
  function Expanded(s: string): string {
    if s == "" then ""
    else if s[0] == '\\' && |s| > 1 && IsEscapable(s[1]) then [s[1]] + Expanded(s[2..])
    else [s[0]] + Expanded(s[1..])
  }

  lemma {:induction false} FastPath(s: string)
    requires '\\' !in s
    ensures Expanded(s) == s
  {
    if s != "" {
      FastPath(s[1..]);
      assert s == [s[0]] + s[1..];
    }
  }

  lemma Reassociate(a: string, c: char, b: string)
    ensures a + [c] + b == a + ([c] + b)
  {
  }

  /** One turn of the loop, at index i. */
  lemma ExpandStep(s: string, i: nat)
    requires i < |s|
    ensures Expanded(s[i..])
         == if s[i] == '\\' && i + 1 < |s| && IsEscapable(s[i + 1]) then [s[i + 1]] + Expanded(s[i + 2..])
            else [s[i]] + Expanded(s[i + 1..])
  {
    var t := s[i..];
    assert t[1..] == s[i + 1..];
    if i + 1 < |s| { assert t[1] == s[i + 1] && t[2..] == s[i + 2..]; }
  }

  /** expandDoubleQuoteEscapes: a fast path for values without a backslash, an index loop otherwise. */
  method ExpandDoubleQuoteEscapes(s: string) returns (r: string)
    ensures r == Expanded(s)
  {
    if '\\' !in s {
      FastPath(s);
      return s;
    }
    r := "";
    var i := 0;
    assert s[0..] == s;
    assert Expanded("") == "";
    hide Expanded;
    while i < |s|
      invariant 0 <= i <= |s|
      invariant r + Expanded(s[i..]) == Expanded(s)
    {
      ExpandStep(s, i);
      var c := s[i];
      if c != '\\' || i + 1 >= |s| {
        Reassociate(r, c, Expanded(s[i + 1..]));
        r := r + [c];
        i := i + 1;
        continue;
      }
      var next := s[i + 1];
      match next {
        case '"' | '\'' | '\\' | '$' | '`' =>
          Reassociate(r, next, Expanded(s[i + 2..]));
          r := r + [next];
          i := i + 1;
        case _ =>
          Reassociate(r, c, Expanded(s[i + 1..]));
          r := r + [c];
      }
      i := i + 1;
    }
    assert s[|s|..] == "";
  }

  predicate IsKeyStart(c: char) {
    'A' <= c <= 'Z' || 'a' <= c <= 'z' || c == '_'
  }

  predicate IsValidKey(s: string) {
    && s != "" && IsKeyStart(s[0])
    && forall i :: 0 <= i < |s| ==> IsKeyStart(s[i]) || '0' <= s[i] <= '9'
  }

  function Unquote(raw: string): Option<string> {
    if raw == "" then Some("")
    else if raw[0] == '"' then
      if |raw| < 2 || raw[|raw| - 1] != '"' then None else Some(Expanded(raw[1..|raw| - 1]))
    else if raw[0] == '\'' then
      if |raw| < 2 || raw[|raw| - 1] != '\'' then None else Some(raw[1..|raw| - 1])
    else Some(TrimRightBlank(raw))
  }

  function SplitKeyValue(line: string): Option<Assignment> {
    var i := IndexOf(line, '=');
    if i <= 0 then None
    else if !IsValidKey(line[..i]) then None
    else
      match Unquote(line[i + 1..])
      case None => None
      case Some(v) => Some(Assignment(line[..i], v))
  }

  /** What a line of the file assigns, if anything. */
  function ParseLine(line: string): Option<Assignment> {
    var t := TrimSpace(line);
    if t == "" || t[0] == '#' then None else SplitKeyValue(t)
  }

  /** The last well-formed assignment of key. */
  function LastValue(lines: seq<string>, key: string): Option<string> {
    if lines == [] then None
    else
      var a := ParseLine(lines[|lines| - 1]);
      if a.Some? && a.value.key == key then Some(a.value.value) else LastValue(lines[..|lines| - 1], key)
  }

  function OrEmpty(v: Option<string>): string {
    if v.Some? then v.value else ""
  }

  const ID := "ID"
  const VERSION_ID := "VERSION_ID"
  const PRETTY_NAME := "PRETTY_NAME"

  method ParseOSRelease(lines: seq<string>) returns (id: string, versionID: string, prettyName: string)
    ensures id == match LastValue(lines, "ID") case None => "" case Some(v) => v
    ensures versionID == match LastValue(lines, "VERSION_ID") case None => "" case Some(v) => v
    ensures prettyName == match LastValue(lines, "PRETTY_NAME") case None => "" case Some(v) => v
  {
    hide SplitKeyValue, TrimSpace;
    id, versionID, prettyName := "", "", "";
    assert ID != VERSION_ID && ID != PRETTY_NAME && VERSION_ID != PRETTY_NAME by {
      assert |ID| == 2 && |VERSION_ID| == 10 && |PRETTY_NAME| == 11;
    }
    for i := 0 to |lines|
      invariant id == OrEmpty(LastValue(lines[..i], ID))
      invariant versionID == OrEmpty(LastValue(lines[..i], VERSION_ID))
      invariant prettyName == OrEmpty(LastValue(lines[..i], PRETTY_NAME))
    {
      assert lines[..i + 1][..i] == lines[..i];
      var line := TrimSpace(lines[i]);
      if line == "" || line[0] == '#' {
        continue;
      }
      var split := SplitKeyValue(line);
      if split.None? {
        continue;
      }
      var key, value := split.value.key, split.value.value;
      if key == ID {
        id := value;
      } else if key == VERSION_ID {
        versionID := value;
      } else if key == PRETTY_NAME {
        prettyName := value;
      }
    }
    assert lines[..|lines|] == lines;
  }

  /** Spaces around a line make no difference. */
  lemma SpacesAround(a: string, line: string, b: string)
    requires AllSpace(a) && AllSpace(b)
    ensures ParseLine(a + line + b) == ParseLine(line)
  {
    TrimSpaceAround(a, line, b);
  }

  // ---------------------------------------------------------------- later wins

  lemma {:induction false} LastValueConcat(a: seq<string>, b: seq<string>, key: string)
    ensures LastValue(a + b, key) == if LastValue(b, key).Some? then LastValue(b, key) else LastValue(a, key)
  {
    hide ParseLine;
    if b == [] {
      assert a + b == a;
    } else {
      assert (a + b)[..|a + b| - 1] == a + b[..|b| - 1];
      LastValueConcat(a, b[..|b| - 1], key);
    }
  }

  /** A line that is blank, a comment, or malformed changes nothing, wherever it stands. */
  lemma JunkIsIgnored(a: seq<string>, junk: string, b: seq<string>, key: string)
    requires ParseLine(junk).None?
    ensures LastValue(a + [junk] + b, key) == LastValue(a + b, key)
  {
    hide ParseLine;
    LastValueConcat(a + [junk], b, key);
    LastValueConcat(a, [junk], key);
    LastValueConcat(a, b, key);
    assert [junk][..0] == [];
  }

  /** The value is that of the last line assigning the key; none when no line does. */
  lemma {:induction false} LastValueMeaning(lines: seq<string>, key: string)
    ensures LastValue(lines, key).None?
       <==> forall i :: 0 <= i < |lines| ==> ParseLine(lines[i]).None? || ParseLine(lines[i]).value.key != key
    ensures LastValue(lines, key).Some? ==>
              exists i :: 0 <= i < |lines| && ParseLine(lines[i]) == Some(Assignment(key, LastValue(lines, key).value))
                && forall j :: i < j < |lines| ==> ParseLine(lines[j]).None? || ParseLine(lines[j]).value.key != key
  {
    hide ParseLine;
    if lines != [] {
      var front, last := lines[..|lines| - 1], lines[|lines| - 1];
      LastValueMeaning(front, key);
      assert forall i :: 0 <= i < |front| ==> front[i] == lines[i];
      if ParseLine(last).Some? && ParseLine(last).value.key == key {
        var i := |lines| - 1;
        assert ParseLine(lines[i]) == Some(Assignment(key, LastValue(lines, key).value));
      } else if LastValue(front, key).Some? {
        var i :| 0 <= i < |front| && ParseLine(front[i]) == Some(Assignment(key, LastValue(front, key).value))
                && forall j :: i < j < |front| ==> ParseLine(front[j]).None? || ParseLine(front[j]).value.key != key;
        assert ParseLine(lines[i]) == Some(Assignment(key, LastValue(lines, key).value));
      }
    }
  }

  // ---------------------------------------------------------------- round trip

  /** A double-quoted spelling of v: backslashes escaped, the other special characters at choice. */
  function Escaped(v: string, choice: seq<bool>): string
    requires |choice| == |v|
  {
    if v == "" then ""
    else (if v[0] == '\\' || (IsEscapable(v[0]) && choice[0]) then ['\\', v[0]] else [v[0]])
         + Escaped(v[1..], choice[1..])
  }

  lemma {:induction false} ExpandInvertsEscape(v: string, choice: seq<bool>)
    requires |choice| == |v|
    ensures Expanded(Escaped(v, choice)) == v
  {
    if v != "" {
      ExpandInvertsEscape(v[1..], choice[1..]);
      var e, rest := Escaped(v, choice), Escaped(v[1..], choice[1..]);
      if v[0] == '\\' || (IsEscapable(v[0]) && choice[0]) {
        assert e[2..] == rest;
      } else {
        assert e[1..] == rest;
      }
      assert v == [v[0]] + v[1..];
    }
  }

  lemma {:induction false} KeyHasNoEquals(key: string)
    requires forall i :: 0 <= i < |key| ==> IsKeyStart(key[i]) || '0' <= key[i] <= '9'
    ensures '=' !in key
  {
  }

  /** Spaces are trimmed from what stands behind a text that ends in none. */
  lemma {:induction false} TrimRightSpaceBehind(a: string, b: string)
    requires a != "" && !IsSpace(a[|a| - 1])
    ensures TrimRightSpace(a + b) == a + TrimRightSpace(b)
    decreases |b|
  {
    if b == "" {
      assert a + b == a;
    } else if IsSpace(b[|b| - 1]) {
      assert (a + b)[..|a + b| - 1] == a + b[..|b| - 1];
      TrimRightSpaceBehind(a, b[..|b| - 1]);
    }
  }

  function Keyed(key: string, v: Option<string>): Option<Assignment> {
    match v
    case None => None
    case Some(value) => Some(Assignment(key, value))
  }

  /** What stands behind KEY= reaches Unquote without the spaces at its end. */
  lemma LineOf(key: string, raw: string)
    requires IsValidKey(key)
    ensures ParseLine(key + "=" + raw) == Keyed(key, Unquote(TrimRightSpace(raw)))
  {
    hide TrimSpace, TrimRightSpace, Unquote, SplitKeyValue;
    LineTrimmed(key + "=", raw);
    KeyValueSplit(key, TrimRightSpace(raw));
    assert (key + "=" + TrimRightSpace(raw))[0] == key[0];
  }

  lemma LineTrimmed(front: string, raw: string)
    requires front != "" && !IsSpace(front[0]) && !IsSpace(front[|front| - 1])
    ensures TrimSpace(front + raw) == front + TrimRightSpace(raw)
  {
    hide TrimRightSpace;
    TrimRightSpaceBehind(front, raw);
  }

  lemma KeyValueSplit(key: string, t: string)
    requires IsValidKey(key)
    ensures SplitKeyValue(key + "=" + t) == Keyed(key, Unquote(t))
  {
    hide Unquote;
    KeyHasNoEquals(key);
    IndexOfConcat(key, "=" + t, '=');
    assert key + "=" + t == key + ("=" + t);
    assert (key + "=" + t)[..|key|] == key && (key + "=" + t)[|key| + 1..] == t;
  }

  lemma TrimRightSpaceKeeps(s: string)
    ensures TrimRightSpace(s) == s <==> s == "" || !IsSpace(s[|s| - 1])
  {
  }

  /** The value of what stands behind an opening quote, when the text ends in the same quote. */
  function Closed(q: char, t: string): Option<string> {
    if t == "" || t[|t| - 1] != q then None
    else Some(if q == '"' then Expanded(t[..|t| - 1]) else t[..|t| - 1])
  }

  /** A line whose value opens with a quote. */
  lemma QuotedLine(key: string, q: char, v: string)
    requires IsValidKey(key) && (q == '"' || q == '\'')
    ensures ParseLine(key + "=" + ([q] + v)) == Keyed(key, Closed(q, TrimRightSpace(v)))
  {
    hide ParseLine, Expanded, TrimRightSpace;
    var t := TrimRightSpace(v);
    LineOf(key, [q] + v);
    TrimRightSpaceBehind([q], v);
    var raw := [q] + t;
    assert t != "" ==> raw[1..|raw| - 1] == t[..|t| - 1];
  }

  /** Writing KEY="escaped value" and parsing gives the key and the value back, for every spelling. */
  lemma QuotedRoundTrip(key: string, v: string, choice: seq<bool>)
    requires IsValidKey(key) && |choice| == |v|
    ensures ParseLine(key + "=\"" + Escaped(v, choice) + "\"") == Some(Assignment(key, v))
  {
    hide ParseLine, Expanded, Escaped, TrimRightSpace;
    var closed := Escaped(v, choice) + "\"";
    QuotedLine(key, '"', closed);
    TrimRightSpaceKeeps(closed);
    assert key + "=\"" + Escaped(v, choice) + "\"" == key + "=" + (['"'] + closed);
    assert closed[..|closed| - 1] == Escaped(v, choice);
    ExpandInvertsEscape(v, choice);
  }

  /** Single quotes keep every character, backslashes and double quotes included. */
  lemma SingleQuotedRoundTrip(key: string, v: string)
    requires IsValidKey(key)
    ensures ParseLine(key + "=" + ("'" + v + "'")) == Some(Assignment(key, v))
  {
    hide ParseLine, TrimRightSpace;
    var closed := v + "'";
    QuotedLine(key, '\'', closed);
    TrimRightSpaceKeeps(closed);
    assert "'" + v + "'" == ['\''] + closed;
    assert closed[..|closed| - 1] == v;
  }

  lemma {:induction false} ExpandedIsNoLonger(s: string)
    ensures |Expanded(s)| <= |s|
    decreases |s|
  {
    if s == "" {
    } else if s[0] == '\\' && |s| > 1 && IsEscapable(s[1]) {
      ExpandedIsNoLonger(s[2..]);
    } else {
      ExpandedIsNoLonger(s[1..]);
    }
  }

  /** A bare value is itself exactly when it neither opens with a quote nor ends in a space. */
  lemma BareRoundTrip(key: string, v: string)
    requires IsValidKey(key)
    ensures ParseLine(key + "=" + v) == Some(Assignment(key, v))
       <==> v == "" || (v[0] != '"' && v[0] != '\'' && !IsSpace(v[|v| - 1]))
  {
    hide ParseLine, Expanded, TrimRightSpace;
    LineOf(key, v);
    TrimRightSpaceKeeps(v);
    var t := TrimRightSpace(v);
    if t != "" && (t[0] == '"' || t[0] == '\'') && |t| >= 2 {
      ExpandedIsNoLonger(t[1..|t| - 1]);
    }
  }

  /** A line that opens a quote assigns nothing exactly when it does not end in that quote, spaces apart. */
  lemma UnbalancedIsIgnored(key: string, q: char, v: string)
    requires IsValidKey(key) && (q == '"' || q == '\'')
    ensures ParseLine(key + "=" + ([q] + v)) == None
       <==> TrimRightSpace(v) == "" || TrimRightSpace(v)[|TrimRightSpace(v)| - 1] != q
  {
    hide ParseLine, Expanded, TrimRightSpace;
    QuotedLine(key, q, v);
  }

  lemma {:induction false} LoneBackslashStays(w: string)
    requires '\\' !in w
    ensures Expanded(w + "\\") == w + "\\"
  {
    if w == "" {
      assert w + "\\" == "\\" && "\\"[1..] == "";
    } else {
      assert (w + "\\")[1..] == w[1..] + "\\";
      LoneBackslashStays(w[1..]);
    }
  }

  /** KEY="w\": the last quote is escaped, so the value is not closed, yet it is accepted. */
  lemma EscapedQuoteCloses(key: string, w: string)
    requires IsValidKey(key) && '\\' !in w
    ensures ParseLine(key + "=" + (['"'] + (w + "\\" + "\""))) == Some(Assignment(key, w + "\\"))
  {
    hide ParseLine, Expanded, TrimRightSpace;
    var v := w + "\\" + "\"";
    QuotedLine(key, '"', v);
    TrimRightSpaceKeeps(v);
    LoneBackslashStays(w);
    assert v[..|v| - 1] == w + "\\";
  }

  /** In a whole file the written line decides its key, whatever junk and other keys follow. */
  lemma FileRoundTrip(before: seq<string>, key: string, v: string, choice: seq<bool>, junk: seq<string>)
    requires IsValidKey(key) && |choice| == |v|
    requires forall i :: 0 <= i < |junk| ==> ParseLine(junk[i]).None? || ParseLine(junk[i]).value.key != key
    ensures LastValue(before + [key + "=\"" + Escaped(v, choice) + "\""] + junk, key) == Some(v)
  {
    hide ParseLine, Escaped;
    var line := key + "=\"" + Escaped(v, choice) + "\"";
    QuotedRoundTrip(key, v, choice);
    LastValueConcat(before + [line], junk, key);
    LastValueMeaning(junk, key);
    assert (before + [line])[|before + [line]| - 1] == line;
  }

  /** The three fields read back, without anything asked of their keys. */
  lemma KnownKeysRoundTrip(before: seq<string>, key: string, v: string, choice: seq<bool>, junk: seq<string>)
    requires key == "ID" || key == "VERSION_ID" || key == "PRETTY_NAME"
    requires |choice| == |v|
    requires forall i :: 0 <= i < |junk| ==> ParseLine(junk[i]).None? || ParseLine(junk[i]).value.key != key
    ensures OrEmpty(LastValue(before + [key + "=\"" + Escaped(v, choice) + "\""] + junk, key)) == v
  {
    KnownKeyIsValid(key);
    hide ParseLine, Escaped, LastValue, IsValidKey;
    FileRoundTrip(before, key, v, choice, junk);
  }

  lemma KnownKeyIsValid(key: string)
    requires key == "ID" || key == "VERSION_ID" || key == "PRETTY_NAME"
    ensures IsValidKey(key)
  {
  }

  /** What a backslash does: five characters lose it, any other keeps it. */
  lemma {:induction false} BackslashMeaning(a: string, c: char, b: string)
    requires '\\' !in a
    ensures Expanded(a + (['\\', c] + b))
         == a + if c in "\"'\\$`" then [c] + Expanded(b) else ['\\'] + Expanded([c] + b)
  {
    var tail := ['\\', c] + b;
    if a == "" {
      assert a + tail == tail;
      BackslashFirst(c, b);
    } else {
      assert (a + tail)[1..] == a[1..] + tail;
      BackslashMeaning(a[1..], c, b);
      assert a == [a[0]] + a[1..];
    }
  }

  lemma BackslashFirst(c: char, b: string)
    ensures Expanded(['\\', c] + b)
         == if c in "\"'\\$`" then [c] + Expanded(b) else ['\\'] + Expanded([c] + b)
  {
    var tail := ['\\', c] + b;
    assert tail[2..] == b && tail[1..] == [c] + b;
  }

  // ---------------------------------------------------------------- keys

  const UPPER := "ABCDEFGHIJKLMNOPQRSTUVWXYZ"
  const LOWER := "abcdefghijklmnopqrstuvwxyz"
  const DIGITS := "0123456789"

  predicate IsLetter(c: char) {
    c in UPPER || c in LOWER || c == '_'
  }

  /** The valid keys, spelled out: letters, digits and underscores, no digit first. */
  lemma KeyMeaning(s: string)
    ensures IsValidKey(s)
       <==> s != "" && IsLetter(s[0]) && forall i :: 0 <= i < |s| ==> IsLetter(s[i]) || s[i] in DIGITS
  {
    hide DIGITS, IsLetter, IsKeyStart;
    forall i | 0 <= i < |s|
      ensures IsKeyStart(s[i]) <==> IsLetter(s[i])
      ensures '0' <= s[i] <= '9' <==> s[i] in DIGITS
    {
      LetterMeaning(s[i]);
      DigitMeaning(s[i]);
    }
  }

  lemma LetterMeaning(c: char)
    ensures IsKeyStart(c) <==> IsLetter(c)
  {
    hide UPPER, LOWER;
    UpperMeaning(c);
    LowerMeaning(c);
  }

  lemma UpperMeaning(c: char)
    ensures 'A' <= c <= 'Z' <==> c in UPPER
  {
    if 'A' <= c <= 'Z' {
      assert c == UPPER[c as int - 'A' as int];
    }
  }

  lemma LowerMeaning(c: char)
    ensures 'a' <= c <= 'z' <==> c in LOWER
  {
    if 'a' <= c <= 'z' {
      assert c == LOWER[c as int - 'a' as int];
    }
  }

  lemma DigitMeaning(c: char)
    ensures '0' <= c <= '9' <==> c in DIGITS
  {
    if '0' <= c <= '9' {
      assert c == DIGITS[c as int - '0' as int];
    }
  }
}
