/**
 * A decoder for JSON without blanks, and what it proves about the canonical form: it is uniquely
 * decodable, canonicalising twice changes nothing, and it depends on the value alone.
 */
module CanonJsonDecode {
  import opened Wrappers
  import opened Text
  import opened CanonJson

  // ---------------------------------------------------------------- strings

  predicate IsSurrogate(n: nat) {
    0xD800 <= n < 0xE000
  }

  function ReadUnicode(t: string): (r: Read<char>)
    ensures r.Got? ==> |r.rest| < |t|
  {
    if |t| < 4 then Bad
    else
      var a, b, c, d := HexValue(t[0]), HexValue(t[1]), HexValue(t[2]), HexValue(t[3]);
      if a.None? || b.None? || c.None? || d.None? then Bad
      else
        var n := a.value * 0x1000 + b.value * 0x100 + c.value * 16 + d.value;
        if IsSurrogate(n) || n >= 0x10000 then Bad else Got(n as char, t[4..])
  }

  /** The escape behind a backslash. */
  function ReadEscape(t: string): (r: Read<char>)
    ensures r.Got? ==> |r.rest| < |t|
  {
    if t == "" then Bad
    else if t[0] == '"' || t[0] == '\\' || t[0] == '/' then Got(t[0], t[1..])
    else if t[0] == 'b' then Got('\U{08}', t[1..])
    else if t[0] == 'f' then Got('\U{0C}', t[1..])
    else if t[0] == 'n' then Got('\n', t[1..])
    else if t[0] == 'r' then Got('\r', t[1..])
    else if t[0] == 't' then Got('\t', t[1..])
    else if t[0] == 'u' then ReadUnicode(t[1..])
    else Bad
  }

  /** A string literal, from behind its opening quote. Section 7 of RFC 8259 wants controls escaped. */
  function ReadString(t: string): (r: Read<string>)
    ensures r.Got? ==> |r.rest| < |t|
    decreases |t|
  {
    if t == "" then Bad
    else if t[0] == '"' then Got("", t[1..])
    else if t[0] < ' ' then Bad
    else if t[0] != '\\' then Prepend(t[0], ReadString(t[1..]))
    else
      match ReadEscape(t[1..])
      case Bad => Bad
      case Got(c, rest) => Prepend(c, ReadString(rest))
  }

  lemma HexRoundTrip(n: nat)
    requires n < 16
    ensures HexValue(HexDigit(n)) == Some(n)
  {
  }

  lemma HexDigits(n: nat)
    requires n < 0x10000
    ensures n / 0x1000 < 16
    ensures n / 0x1000 * 0x1000 + n / 0x100 % 16 * 0x100 + n / 16 % 16 * 16 + n % 16 == n
  {
    assert n / 0x100 == n / 0x1000 * 16 + n / 0x100 % 16;
    assert n / 16 == n / 0x100 * 16 + n / 16 % 16;
  }

  lemma UnicodeRoundTrip(c: char, t: string)
    requires (c as int) < 0x10000
    ensures ReadUnicode(UnicodeEscape(c as int)[2..] + t) == Got(c, t)
  {
    var n := c as int;
    HexDigits(n);
    var d0, d1, d2, d3 := n / 0x1000, n / 0x100 % 16, n / 16 % 16, n % 16;
    HexRoundTrip(d0);
    HexRoundTrip(d1);
    HexRoundTrip(d2);
    HexRoundTrip(d3);
    hide HexValue, HexDigit;
    assert UnicodeEscape(n)[2..] == [HexDigit(d0), HexDigit(d1), HexDigit(d2), HexDigit(d3)];
    ReadDigits(HexDigit(d0), HexDigit(d1), HexDigit(d2), HexDigit(d3), t);
    assert !IsSurrogate(n);
  }

  lemma ReadDigits(a: char, b: char, c: char, d: char, t: string)
    ensures ([a, b, c, d] + t)[4..] == t
    ensures var u := [a, b, c, d] + t; u[0] == a && u[1] == b && u[2] == c && u[3] == d
  {
  }

  /** Each escaped character is read back. */
  lemma EscapeReadBack(c: char, t: string)
    ensures ReadString(EscapeChar(c) + t) == Prepend(c, ReadString(t))
  {
    hide ReadString, ReadEscape, ReadUnicode, UnicodeEscape, Prepend;
    var e := EscapeChar(c);
    if (c as int) < 0x10000 { UnicodeEscapeShape(c as int); }
    if e == [c] {
      PlainReadBack(c, t);
    } else if (c as int) < 0x10000 && e == UnicodeEscape(c as int) {
      UnicodeRoundTrip(c, t);
      LongEscape(e[2..], c, t);
      assert ['\\'] + e[1..] == e && e[1..] == ['u'] + e[2..];
      EscapedReadBack(e[1..], c, t);
    } else {
      ShortEscape(c, t);
      EscapedReadBack(e[1..], c, t);
      assert ['\\'] + e[1..] == e;
    }
  }

  lemma PlainReadBack(c: char, t: string)
    requires c != '"' && c != '\\' && c >= ' '
    ensures ReadString([c] + t) == Prepend(c, ReadString(t))
  {
    assert ([c] + t)[1..] == t;
  }

  lemma EscapedReadBack(e: string, c: char, t: string)
    requires ReadEscape(e + t) == Got(c, t)
    ensures ReadString(['\\'] + e + t) == Prepend(c, ReadString(t))
  {
    hide ReadEscape;
    assert (['\\'] + e + t)[1..] == e + t;
  }

  lemma ShortEscape(c: char, t: string)
    requires |EscapeChar(c)| == 2
    ensures ReadEscape(EscapeChar(c)[1..] + t) == Got(c, t)
  {
    hide ReadUnicode;
    var u := EscapeChar(c)[1..] + t;
    assert u[0] == EscapeChar(c)[1] && u[1..] == t;
  }

  lemma LongEscape(digits: string, c: char, t: string)
    requires ReadUnicode(digits + t) == Got(c, t)
    ensures ReadEscape(['u'] + digits + t) == Got(c, t)
  {
    hide ReadUnicode;
    var u := ['u'] + digits + t;
    assert u[0] == 'u' && u[1..] == digits + t;
  }

  lemma UnicodeEscapeShape(n: nat)
    requires n < 0x10000
    ensures |UnicodeEscape(n)| == 6 && UnicodeEscape(n)[0] == '\\' && UnicodeEscape(n)[1] == 'u'
  {
  }

  lemma {:induction false} StringRoundTrip(s: string, t: string)
    ensures ReadString(EscapeAll(s) + "\"" + t) == Got(s, t)
  {
    if s == "" {
      assert EscapeAll(s) + "\"" + t == "\"" + t;
      assert ("\"" + t)[1..] == t;
    } else {
      hide EscapeChar, ReadEscape;
      var tail := EscapeAll(s[1..]) + "\"" + t;
      assert EscapeAll(s) + "\"" + t == EscapeChar(s[0]) + tail;
      hide ReadString;
      EscapeReadBack(s[0], tail);
      StringRoundTrip(s[1..], t);
      assert s == [s[0]] + s[1..];
    }
  }

  lemma QuoteReadBack(s: string, t: string)
    ensures var u := Quote(s) + t;
            u != "" && u[0] == '"' && ReadString(u[1..]) == Got(s, t)
  {
    hide EscapeAll, ReadString;
    StringRoundTrip(s, t);
    assert (Quote(s) + t)[1..] == EscapeAll(s) + "\"" + t;
  }

  // ---------------------------------------------------------------- values

  predicate IsNumChar(c: char) {
    '0' <= c <= '9' || c == '-' || c == '+' || c == '.' || c == 'e' || c == 'E'
  }

  /** Every literal of the JSON number grammar has this shape; nothing more is needed. */
  predicate IsNumber(t: string) {
    t != "" && (t[0] == '-' || '0' <= t[0] <= '9') && forall i :: 0 <= i < |t| ==> IsNumChar(t[i])
  }

  function NumRun(t: string): (n: nat)
    ensures n <= |t|
  {
    if t == "" || !IsNumChar(t[0]) then 0 else 1 + NumRun(t[1..])
  }

  datatype Pair = Pair(key: string, value: Json)

  function ToMap(pairs: seq<Pair>): map<string, Json> {
    if pairs == [] then map[]
    else
      var last := pairs[|pairs| - 1];
      ToMap(pairs[..|pairs| - 1])[last.key := last.value]
  }

  function DecodeValue(t: string): (r: Read<Json>)
    ensures r.Got? ==> |r.rest| < |t|
    decreases |t|, 0
  {
    if t == "" then Bad
    else if t[0] == '"' then
      (match ReadString(t[1..])
       case Bad => Bad
       case Got(s, rest) => Got(Str(s), rest))
    else if t[0] == '[' then
      if |t| > 1 && t[1] == ']' then Got(Arr([]), t[2..])
      else
        (match DecodeItems(t[1..])
         case Bad => Bad
         case Got(items, rest) => Got(Arr(items), rest))
    else if t[0] == '{' then
      if |t| > 1 && t[1] == '}' then Got(Obj(map[]), t[2..])
      else
        (match DecodeMembers(t[1..])
         case Bad => Bad
         case Got(pairs, rest) => Got(Obj(ToMap(pairs)), rest))
    else if StartsWith(t, "null") then Got(Null, t[4..])
    else if StartsWith(t, "true") then Got(Bool(true), t[4..])
    else if StartsWith(t, "false") then Got(Bool(false), t[5..])
    else if t[0] == '-' || '0' <= t[0] <= '9' then Got(Num(t[..NumRun(t)]), t[NumRun(t)..])
    else Bad
  }

  function DecodeItems(t: string): (r: Read<seq<Json>>)
    ensures r.Got? ==> |r.rest| < |t|
    decreases |t|, 1
  {
    match DecodeValue(t)
    case Bad => Bad
    case Got(v, rest) =>
      if rest == "" then Bad
      else if rest[0] == ']' then Got([v], rest[1..])
      else if rest[0] != ',' then Bad
      else
        match DecodeItems(rest[1..])
        case Bad => Bad
        case Got(vs, rest2) => Got([v] + vs, rest2)
  }

  function DecodeMember(t: string): (r: Read<Pair>)
    ensures r.Got? ==> |r.rest| < |t|
    decreases |t|, 1
  {
    if t == "" || t[0] != '"' then Bad
    else
      match ReadString(t[1..])
      case Bad => Bad
      case Got(k, rest) =>
        if rest == "" || rest[0] != ':' then Bad
        else
          match DecodeValue(rest[1..])
          case Bad => Bad
          case Got(v, rest2) => Got(Pair(k, v), rest2)
  }

  function DecodeMembers(t: string): (r: Read<seq<Pair>>)
    ensures r.Got? ==> |r.rest| < |t|
    decreases |t|, 2
  {
    match DecodeMember(t)
    case Bad => Bad
    case Got(p, rest) =>
      if rest == "" then Bad
      else if rest[0] == '}' then Got([p], rest[1..])
      else if rest[0] != ',' then Bad
      else
        match DecodeMembers(rest[1..])
        case Bad => Bad
        case Got(ps, rest2) => Got([p] + ps, rest2)
  }

  // ---------------------------------------------------------------- decoding the canonical form

  /** Every number in the tree is a JSON number literal. */
  ghost predicate NumbersOk(v: Json)
    decreases v
  {
    match v
    case Num(text) => IsNumber(text)
    case Arr(items) => forall i :: 0 <= i < |items| ==> NumbersOk(items[i])
    case Obj(m) => forall k :: k in m ==> NumbersOk(m[k])
    case _ => true
  }

  /** Text at which a number literal ends. */
  predicate Stops(t: string) {
    t == "" || !IsNumChar(t[0])
  }

  lemma {:induction false} NumRunIs(n: string, t: string)
    requires (forall i :: 0 <= i < |n| ==> IsNumChar(n[i])) && Stops(t)
    ensures NumRun(n + t) == |n|
  {
    if n == "" {
      assert n + t == t;
    } else {
      assert (n + t)[1..] == n[1..] + t;
      NumRunIs(n[1..], t);
    }
  }

  /** No canonical form starts like the end of a list, or of nothing. */
  lemma CanonStart(v: Json)
    requires NumbersOk(v)
    ensures Canon(v) != "" && Canon(v)[0] != ']' && Canon(v)[0] != '}'
  {
    hide SortedKeys, CanonMembers, CanonItems, EscapeAll;
  }

  lemma ScalarReadBack(v: Json, t: string)
    requires NumbersOk(v) && Stops(t) && !v.Arr? && !v.Obj?
    ensures DecodeValue(Canon(v) + t) == Got(v, t)
  {
    hide ReadString, DecodeItems, DecodeMembers, EscapeAll;
    var u := Canon(v) + t;
    match v
    case Null => assert u[..4] == "null" && u[4..] == t;
    case Bool(b) =>
      if b {
        assert u[..4] == "true" && u[4..] == t;
      } else {
        assert u[..5] == "false" && u[5..] == t;
      }
    case Num(text) => NumberReadBack(text, t);
    case Str(s) => QuoteReadBack(s, t);
  }

  lemma FirstOfPrefix(t: string, p: string)
    requires p != ""
    ensures StartsWith(t, p) ==> t[0] == p[0]
  {
    assert StartsWith(t, p) ==> t[..|p|][0] == t[0];
  }

  lemma NumberReadBack(text: string, t: string)
    requires IsNumber(text) && Stops(t)
    ensures DecodeValue(text + t) == Got(Num(text), t)
  {
    hide ReadString, DecodeItems, DecodeMembers;
    var u := text + t;
    assert u[0] == text[0];
    NumRunIs(text, t);
    FirstOfPrefix(u, "null");
    FirstOfPrefix(u, "true");
    FirstOfPrefix(u, "false");
    hide NumRun;
    assert u[..|text|] == text && u[|text|..] == t;
  }

  function Pairs(keys: seq<string>, m: map<string, Json>): (r: seq<Pair>)
    requires forall k :: k in keys ==> k in m
    ensures |r| == |keys|
    ensures forall i :: 0 <= i < |keys| ==> r[i] == Pair(keys[i], m[keys[i]])
  {
    seq(|keys|, i requires 0 <= i < |keys| => Pair(keys[i], m[keys[i]]))
  }

  lemma {:induction false} ToMapOfPairs(keys: seq<string>, m: map<string, Json>)
    requires forall k :: k in keys ==> k in m
    ensures ToMap(Pairs(keys, m)).Keys == set k | k in keys
    ensures forall k :: k in keys ==> ToMap(Pairs(keys, m))[k] == m[k]
  {
    if keys != [] {
      var front := keys[..|keys| - 1];
      ToMapOfPairs(front, m);
      assert Pairs(keys, m)[..|keys| - 1] == Pairs(front, m);
      assert keys == front + [keys[|keys| - 1]];
    }
  }

  lemma PairsOfSortedKeys(m: map<string, Json>)
    ensures ToMap(Pairs(SortedKeys(m.Keys), m)) == m
  {
    hide SortedKeys;
    ToMapOfPairs(SortedKeys(m.Keys), m);
  }

  /** The decoder inverts the printer, whatever follows. */
  lemma {:induction false} ReadBack(v: Json, t: string)
    requires NumbersOk(v) && Stops(t)
    ensures DecodeValue(Canon(v) + t) == Got(v, t)
    decreases v, 1, 0
  {
    match v
    case Arr(items) =>
      if items == [] {
        EmptyArray(t);
      } else {
        ItemsReadBack(items, t);
        ArrayReadBack(items, t);
      }
    case Obj(m) =>
      if m.Keys == {} {
        EmptyObject(m, t);
      } else {
        var keys := SortedKeys(m.Keys);
        assert keys != [];
        MembersReadBack(keys, m, v, t);
        ObjectReadBack(m, t);
      }
    case _ => ScalarReadBack(v, t);
  }

  lemma EmptyArray(t: string)
    ensures DecodeValue(Canon(Arr([])) + t) == Got(Arr([]), t)
  {
    var u := Canon(Arr([])) + t;
    assert u == "[]" + t && u[0] == '[' && u[1] == ']' && u[2..] == t;
  }

  lemma EmptyObject(m: map<string, Json>, t: string)
    requires m.Keys == {}
    ensures DecodeValue(Canon(Obj(m)) + t) == Got(Obj(m), t)
  {
    hide DecodeMembers, DecodeItems, ReadString;
    assert SortedKeys(m.Keys) == [];
    assert CanonMembers([], m, Obj(m)) == "";
    var u := Canon(Obj(m)) + t;
    assert u == "{}" + t && u[0] == '{' && u[1] == '}' && u[2..] == t;
    assert m == map[];
  }

  lemma ItemsStart(items: seq<Json>)
    requires items != [] && NumbersOk(items[0])
    ensures CanonItems(items) != "" && CanonItems(items)[0] != ']'
  {
    CanonStart(items[0]);
  }

  lemma ArrayReadBack(items: seq<Json>, t: string)
    requires items != [] && NumbersOk(items[0])
    requires DecodeItems(CanonItems(items) + "]" + t) == Got(items, t)
    ensures DecodeValue(Canon(Arr(items)) + t) == Got(Arr(items), t)
  {
    hide DecodeItems, CanonItems, DecodeMembers;
    ItemsStart(items);
    var u := Canon(Arr(items)) + t;
    assert u[0] == '[' && u[1] == CanonItems(items)[0] && u[1..] == CanonItems(items) + "]" + t;
  }

  lemma {:induction false} ItemsReadBack(items: seq<Json>, t: string)
    requires items != [] && forall i :: 0 <= i < |items| ==> NumbersOk(items[i])
    ensures DecodeItems(CanonItems(items) + "]" + t) == Got(items, t)
    decreases items, 0, 0
  {
    if |items| == 1 {
      ReadBack(items[0], "]" + t);
      LastItem(items[0], t);
      assert items == [items[0]];
    } else {
      var rest := items[1..];
      ItemsReadBack(rest, t);
      ReadBack(items[0], "," + (CanonItems(rest) + "]" + t));
      MoreItems(items, t);
    }
  }

  lemma LastItem(v: Json, t: string)
    requires DecodeValue(Canon(v) + ("]" + t)) == Got(v, "]" + t)
    ensures DecodeItems(CanonItems([v]) + "]" + t) == Got([v], t)
  {
    hide Canon, DecodeValue;
    assert CanonItems([v]) + "]" + t == Canon(v) + ("]" + t);
    assert ("]" + t)[1..] == t;
  }

  lemma MoreItems(items: seq<Json>, t: string)
    requires |items| > 1
    requires DecodeItems(CanonItems(items[1..]) + "]" + t) == Got(items[1..], t)
    requires var tail := "," + (CanonItems(items[1..]) + "]" + t);
             DecodeValue(Canon(items[0]) + tail) == Got(items[0], tail)
    ensures DecodeItems(CanonItems(items) + "]" + t) == Got(items, t)
  {
    hide Canon, DecodeValue;
    var more := CanonItems(items[1..]) + "]" + t;
    assert CanonItems(items) + "]" + t == Canon(items[0]) + ("," + more);
    hide CanonItems;
    assert ("," + more)[0] == ',' && ("," + more)[1..] == more;
    assert [items[0]] + items[1..] == items;
  }

  lemma MemberReadBack(k: string, m: map<string, Json>, v: Json, t: string)
    requires v == Obj(m) && k in m
    requires DecodeValue(Canon(m[k]) + t) == Got(m[k], t)
    ensures DecodeMember(CanonMember(k, m, v) + t) == Got(Pair(k, m[k]), t)
  {
    hide Canon, DecodeValue, ReadString, Quote;
    var tail := ":" + (Canon(m[k]) + t);
    assert CanonMember(k, m, v) + t == Quote(k) + tail;
    QuoteReadBack(k, tail);
    assert tail[1..] == Canon(m[k]) + t;
  }

  lemma {:induction false} MembersReadBack(keys: seq<string>, m: map<string, Json>, v: Json, t: string)
    requires v == Obj(m) && NumbersOk(v) && keys != [] && forall k :: k in keys ==> k in m
    ensures DecodeMembers(CanonMembers(keys, m, v) + "}" + t) == Got(Pairs(keys, m), t)
    decreases v, 0, |keys|
  {
    hide Canon, CanonMember, DecodeValue, DecodeMember;
    if |keys| == 1 {
      ReadBack(m[keys[0]], "}" + t);
      MemberReadBack(keys[0], m, v, "}" + t);
      LastMember(keys, m, v, t);
    } else {
      var rest := keys[1..];
      var tail := "," + (CanonMembers(rest, m, v) + "}" + t);
      MembersReadBack(rest, m, v, t);
      ReadBack(m[keys[0]], tail);
      MemberReadBack(keys[0], m, v, tail);
      MoreMembers(keys, m, v, t);
    }
  }

  lemma LastMember(keys: seq<string>, m: map<string, Json>, v: Json, t: string)
    requires v == Obj(m) && |keys| == 1 && keys[0] in m
    requires DecodeMember(CanonMember(keys[0], m, v) + ("}" + t)) == Got(Pair(keys[0], m[keys[0]]), "}" + t)
    ensures DecodeMembers(CanonMembers(keys, m, v) + "}" + t) == Got(Pairs(keys, m), t)
  {
    hide CanonMember, DecodeMember;
    assert CanonMembers(keys, m, v) + "}" + t == CanonMember(keys[0], m, v) + ("}" + t);
    assert ("}" + t)[1..] == t;
    assert Pairs(keys, m) == [Pair(keys[0], m[keys[0]])];
  }

  lemma MoreMembers(keys: seq<string>, m: map<string, Json>, v: Json, t: string)
    requires v == Obj(m) && |keys| > 1 && forall k :: k in keys ==> k in m
    requires DecodeMembers(CanonMembers(keys[1..], m, v) + "}" + t) == Got(Pairs(keys[1..], m), t)
    requires var tail := "," + (CanonMembers(keys[1..], m, v) + "}" + t);
             DecodeMember(CanonMember(keys[0], m, v) + tail) == Got(Pair(keys[0], m[keys[0]]), tail)
    ensures DecodeMembers(CanonMembers(keys, m, v) + "}" + t) == Got(Pairs(keys, m), t)
  {
    hide CanonMember, DecodeMember;
    var more := CanonMembers(keys[1..], m, v) + "}" + t;
    assert CanonMembers(keys, m, v) + "}" + t == CanonMember(keys[0], m, v) + ("," + more);
    hide CanonMembers;
    assert ("," + more)[0] == ',' && ("," + more)[1..] == more;
    assert [Pair(keys[0], m[keys[0]])] + Pairs(keys[1..], m) == Pairs(keys, m);
  }

  lemma ObjectReadBack(m: map<string, Json>, t: string)
    requires m.Keys != {}
    requires var keys := SortedKeys(m.Keys);
             DecodeMembers(CanonMembers(keys, m, Obj(m)) + "}" + t) == Got(Pairs(keys, m), t)
    ensures DecodeValue(Canon(Obj(m)) + t) == Got(Obj(m), t)
  {
    hide SortedKeys, DecodeMembers, DecodeItems, ReadString, Quote, ToMap, CanonMembers, Pairs;
    var keys := SortedKeys(m.Keys);
    SomeKey(m.Keys);
    MembersStart(keys, m);
    PairsOfSortedKeys(m);
    var text := CanonMembers(keys, m, Obj(m));
    BracesAround(text, t);
    assert Canon(Obj(m)) == "{" + text + "}";
  }

  lemma SomeKey(keys: set<string>)
    requires keys != {}
    ensures SortedKeys(keys) != []
  {
    hide SortedKeys;
    var k :| k in keys;
    assert k in SortedKeys(keys);
  }

  lemma BracesAround(text: string, t: string)
    requires text != ""
    ensures var u := "{" + text + "}" + t;
            u[0] == '{' && u[1] == text[0] && u[1..] == text + "}" + t
  {
  }

  lemma MembersStart(keys: seq<string>, m: map<string, Json>)
    requires keys != [] && forall k :: k in keys ==> k in m
    ensures CanonMembers(keys, m, Obj(m)) != "" && CanonMembers(keys, m, Obj(m))[0] == '"'
  {
    hide EscapeAll, Canon;
  }

  // ---------------------------------------------------------------- theorems

  /** Decode a whole text. */
  function Decode(t: string): Option<Json> {
    match DecodeValue(t)
    case Bad => None
    case Got(v, rest) => if rest == "" then Some(v) else None
  }

  /** The canonical form decodes to the value it was printed from. */
  lemma CanonDecodes(v: Json)
    requires NumbersOk(v)
    ensures Decode(Canon(v)) == Some(v)
  {
    ReadBack(v, "");
    assert Canon(v) + "" == Canon(v);
  }

  /** Equal canonical bytes mean equal values. */
  lemma CanonInjective(a: Json, b: Json)
    requires NumbersOk(a) && NumbersOk(b)
    ensures Canon(a) == Canon(b) <==> a == b
  {
    CanonDecodes(a);
    CanonDecodes(b);
  }

  /** A literal that writes an integer with a decimal point and zeros. */
  predicate HasZeroDecimals(t: string) {
    var i := IndexOf(t, '.');
    0 <= i < |t| - 1 && forall j :: i < j < |t| ==> t[j] == '0'
  }

  function WithoutZeroDecimals(t: string): string {
    if HasZeroDecimals(t) then t[..IndexOf(t, '.')] else t
  }

  /** The documented form of a number drops zero decimals; the printed one does when there are none. */
  lemma DecimalsAreCopied(t: string)
    ensures Canon(Num(t)) == WithoutZeroDecimals(t) <==> !HasZeroDecimals(t)
  {
  }

  /** 1 and 1.0 keep their own spellings. */
  lemma OneAndOnePointZero()
    ensures HasZeroDecimals("1.0") && WithoutZeroDecimals("1.0") == "1" && Canon(Num("1.0")) == "1.0"
    ensures Canon(Num("1")) != Canon(Num("1.0"))
  {
    var t := "1.0";
    assert t[1] == '.' && t[..1] == "1";
    assert IndexOf(t, '.') == 1 by { assert '.' !in t[..0]; }
  }

  /** Canonicalising a canonical text returns it unchanged. */
  lemma CanonIdempotent(v: Json)
    requires NumbersOk(v)
    ensures Decode(Canon(v)).Some? && Canon(Decode(Canon(v)).value) == Canon(v)
  {
    CanonDecodes(v);
  }

  /** The member list read back from a canonical object has strictly ascending keys. */
  lemma KeysAscend(m: map<string, Json>, t: string)
    requires m.Keys != {} && NumbersOk(Obj(m))
    ensures var r := DecodeMembers(CanonMembers(SortedKeys(m.Keys), m, Obj(m)) + "}" + t);
            && r.Got? && r.rest == t
            && forall i, j :: 0 <= i < j < |r.value| ==> Less(r.value[i].key, r.value[j].key)
  {
    var keys := SortedKeys(m.Keys);
    assert keys != [];
    MembersReadBack(keys, m, Obj(m), t);
    StrictlyAscending(m.Keys);
  }

  lemma StrictlyAscending(s: set<string>)
    ensures forall i, j :: 0 <= i < j < |SortedKeys(s)| ==> Less(SortedKeys(s)[i], SortedKeys(s)[j])
  {
    var keys := SortedKeys(s);
    hide SortedKeys, Less;
    forall i, j | 0 <= i < j < |keys| ensures Less(keys[i], keys[j]) {
      LessTotal(keys[i], keys[j]);
      assert AtMost(keys[i], keys[j]);
      if keys[i] == keys[j] {
        Repeated(keys, i, j);
      }
    }
  }

  lemma Repeated(s: seq<string>, i: nat, j: nat)
    requires i < j < |s| && s[i] == s[j]
    ensures multiset(s)[s[i]] >= 2
  {
    assert s == s[..j] + s[j..];
    assert s[i] in multiset(s[..j]) by { assert s[..j][i] == s[i]; }
    assert s[j] in multiset(s[j..]) by { assert s[j..][0] == s[j]; }
  }
}
