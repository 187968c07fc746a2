/**
 * Canonical JSON: the printer with sorted keys and no blanks, and a decoder that inverts it.
 */
module CanonJson {
  import opened Wrappers
  import opened Buffers
  import opened Text
  import opened Sequences
  import opened Sorting

  // A decoded JSON value; numbers keep their literal text (UseNumber).
  datatype Json =
    | Null
    | Bool(b: bool)
    | Num(text: string)
    | Str(s: string)
    | Arr(items: seq<Json>)
    | Obj(members: map<string, Json>)

  // ---------------------------------------------------------------- strings

  function HexDigit(n: nat): char
    requires n < 16
  {
    if n < 10 then '0' + (n as char) else 'a' + ((n - 10) as char)
  }

  function HexValue(c: char): Option<nat> {
    if '0' <= c <= '9' then Some(c as int - '0' as int)
    else if 'a' <= c <= 'f' then Some(c as int - 'a' as int + 10)
    else if 'A' <= c <= 'F' then Some(c as int - 'A' as int + 10)
    else None
  }

  function UnicodeEscape(n: nat): string
    requires n < 0x10000
  {
    ['\\', 'u', HexDigit(n / 0x1000), HexDigit(n / 0x100 % 16), HexDigit(n / 16 % 16), HexDigit(n % 16)]
  }

  /** encoding/json's escaping, with its HTML escapes. */
  function EscapeChar(c: char): (e: string)
    ensures e != ""
  {
    if c == '"' then "\\\"" else if c == '\\' then "\\\\"
    else if c == '\U{08}' then "\\b" else if c == '\U{0C}' then "\\f"
    else if c == '\n' then "\\n" else if c == '\r' then "\\r" else if c == '\t' then "\\t"
    else if c < ' ' || c == '<' || c == '>' || c == '&' || c == '\U{2028}' || c == '\U{2029}'
    then UnicodeEscape(c as int)
    else [c]
  }

  function EscapeAll(s: string): string {
    if s == "" then "" else EscapeChar(s[0]) + EscapeAll(s[1..])
  }

  /** json.Marshal of a string. */
  function Quote(s: string): string {
    "\"" + EscapeAll(s) + "\""
  }

  // ---------------------------------------------------------------- the canonical form

  lemma {:induction false} LeastExists(s: set<string>)
    requires s != {}
    ensures exists k :: k in s && forall j :: j in s ==> AtMost(k, j)
  {
    hide Less;
    var x :| x in s;
    if s == {x} {
      LessIrreflexive(x);
      assert forall j :: j in s ==> AtMost(x, j);
    } else {
      LeastExists(s - {x});
      var k :| k in s - {x} && forall j :: j in s - {x} ==> AtMost(k, j);
      LessTotal(x, k);
      LessIrreflexive(x);
      if AtMost(k, x) {
        assert k in s && forall j :: j in s ==> AtMost(k, j);
      } else {
        LessAsymmetric(x, k);
        forall j | j in s ensures AtMost(x, j) {
          if j != x { AtMostTransitive(x, k, j); }
        }
        assert x in s;
      }
    }
  }

  ghost function LeastKey(s: set<string>): (k: string)
    requires s != {}
    ensures k in s && forall j :: j in s ==> AtMost(k, j)
  {
    LeastExists(s);
    var k :| k in s && forall j :: j in s ==> AtMost(k, j);
    k
  }

  ghost predicate Ascending(r: seq<string>) {
    SortedBy((k: string) => k, r)
  }

  lemma AscendingCons(k: string, rest: seq<string>)
    requires Ascending(rest) && forall j :: j in rest ==> AtMost(k, j)
    ensures Ascending([k] + rest)
  {
    hide AtMost;
    var r := [k] + rest;
    forall i, j | 0 <= i < j < |r| ensures AtMost(r[i], r[j]) {
      assert r[j] == rest[j - 1];
      if i > 0 { assert r[i] == rest[i - 1]; }
    }
  }

  /** The keys in ascending order. */
  ghost function SortedKeys(s: set<string>): (r: seq<string>)
    ensures multiset(r) == multiset(s) && Ascending(r)
    ensures forall k :: k in r <==> k in s
    decreases |s|
  {
    if s == {} then []
    else
      hide Ascending, AtMost;
      var k := LeastKey(s);
      var rest := SortedKeys(s - {k});
      assert multiset(s) == multiset{k} + multiset(s - {k});
      AscendingCons(k, rest);
      [k] + rest
  }

  ghost function Canon(v: Json): string
    decreases v, 0
  {
    match v
    case Null => "null"
    case Bool(b) => if b then "true" else "false"
    case Num(text) => text
    case Str(s) => Quote(s)
    case Arr(items) => "[" + CanonItems(items) + "]"
    case Obj(m) => "{" + CanonMembers(SortedKeys(m.Keys), m, v) + "}"
  }

  ghost function CanonItems(items: seq<Json>): string
    decreases items, 0
  {
    if items == [] then ""
    else if |items| == 1 then Canon(items[0])
    else Canon(items[0]) + "," + CanonItems(items[1..])
  }

  ghost function CanonMembers(keys: seq<string>, m: map<string, Json>, v: Json): string
    requires v == Obj(m) && forall k :: k in keys ==> k in m
    decreases v, 0, |keys|
  {
    if keys == [] then ""
    else if |keys| == 1 then CanonMember(keys[0], m, v)
    else CanonMember(keys[0], m, v) + "," + CanonMembers(keys[1..], m, v)
  }

  ghost function CanonMember(k: string, m: map<string, Json>, v: Json): string
    requires v == Obj(m) && k in m
    decreases v, 0, 0
  {
    Quote(k) + ":" + Canon(m[k])
  }

  // ---------------------------------------------------------------- the printer

  /** The keys of a map in the arbitrary order of its iteration. */
  method CollectKeys(m: map<string, Json>) returns (keys: seq<string>)
    ensures multiset(keys) == multiset(m.Keys)
  {
    keys := [];
    var left := m.Keys;
    while left != {}
      invariant left <= m.Keys
      invariant multiset(keys) + multiset(left) == multiset(m.Keys)
      decreases |left|
    {
      var k :| k in left;
      keys := keys + [k];
      assert multiset(left) == multiset{k} + multiset(left - {k});
      left := left - {k};
    }
  }

  /** sort.Strings on the collected keys. */
  method SortedKeyList(m: map<string, Json>) returns (keys: seq<string>)
    ensures keys == SortedKeys(m.Keys)
  {
    keys := CollectKeys(m);
    var a := new string[|keys|](i requires 0 <= i < |keys| => keys[i]);
    assert a[..] == keys;
    SortInPlace((k: string) => k, a);
    SortedUnique((k: string) => k, a[..], SortedKeys(m.Keys));
    keys := a[..];
  }

  lemma {:induction false} ItemsSnoc(items: seq<Json>, x: Json)
    ensures CanonItems(items + [x]) == if items == [] then Canon(x) else CanonItems(items) + "," + Canon(x)
  {
    hide Canon;
    if items == [] {
      assert items + [x] == [x];
    } else if |items| == 1 {
      assert (items + [x])[1..] == [x];
    } else {
      assert CanonItems(items + [x]) == Canon(items[0]) + "," + CanonItems(items[1..] + [x]) by {
        assert (items + [x])[1..] == items[1..] + [x];
      }
      ItemsSnoc(items[1..], x);
      Separated(Canon(items[0]), CanonItems(items[1..]), Canon(x));
    }
  }

  lemma Separated(a: string, b: string, c: string)
    ensures a + "," + (b + "," + c) == a + "," + b + "," + c
  {
  }

  lemma {:induction false} MembersSnoc(keys: seq<string>, k: string, m: map<string, Json>, v: Json)
    requires v == Obj(m) && k in m && forall j :: j in keys ==> j in m
    ensures CanonMembers(keys + [k], m, v)
         == if keys == [] then CanonMember(k, m, v) else CanonMembers(keys, m, v) + "," + CanonMember(k, m, v)
  {
    hide CanonMember;
    if keys == [] {
      assert keys + [k] == [k];
    } else if |keys| == 1 {
      assert (keys + [k])[1..] == [k];
    } else {
      assert CanonMembers(keys + [k], m, v)
          == CanonMember(keys[0], m, v) + "," + CanonMembers(keys[1..] + [k], m, v) by {
        assert (keys + [k])[1..] == keys[1..] + [k];
      }
      MembersSnoc(keys[1..], k, m, v);
      Separated(CanonMember(keys[0], m, v), CanonMembers(keys[1..], m, v), CanonMember(k, m, v));
    }
  }

  /** write: appends the canonical form of v to the shared buffer. */
  method Write(buf: Buffer, v: Json)
    modifies buf
    ensures buf.text == old(buf.text) + Canon(v)
    decreases v, 1
  {
    match v {
      case Null => buf.Append("null");
      case Bool(b) =>
        if b {
          buf.Append("true");
        } else {
          buf.Append("false");
        }
      case Num(text) => buf.Append(text);
      case Str(s) => buf.Append(Quote(s));
      case Arr(items) => WriteItems(buf, items);
      case Obj(m) => WriteMembers(buf, m, v);
    }
  }

  method WriteItems(buf: Buffer, items: seq<Json>)
    modifies buf
    ensures buf.text == old(buf.text) + ("[" + CanonItems(items) + "]")
    decreases items, 1
  {
    hide Canon, CanonItems;
    NoItems();
    buf.Append("[");
    ghost var start := buf.text;
    for i := 0 to |items|
      invariant buf.text == start + CanonItems(items[..i])
    {
      ItemsSnoc(items[..i], items[i]);
      assert items[..i + 1] == items[..i] + [items[i]];
      if i > 0 {
        buf.Append(",");
      }
      Write(buf, items[i]);
      Continued(start, CanonItems(items[..i]), Canon(items[i]));
    }
    assert items[..|items|] == items;
    buf.Append("]");
    ConcatAssociative(old(buf.text), "[", CanonItems(items));
  }

  method WriteMember(buf: Buffer, k: string, m: map<string, Json>, ghost v: Json)
    requires v == Obj(m) && k in m
    modifies buf
    ensures buf.text == old(buf.text) + CanonMember(k, m, v)
    decreases v, 0, 0
  {
    hide Quote;
    buf.Append(Quote(k));
    buf.Append(":");
    Write(buf, m[k]);
  }

  method WriteMembers(buf: Buffer, m: map<string, Json>, ghost v: Json)
    requires v == Obj(m)
    modifies buf
    ensures buf.text == old(buf.text) + ("{" + CanonMembers(SortedKeys(m.Keys), m, v) + "}")
    decreases v, 0, 1
  {
    var keys := SortedKeyList(m);
    hide SortedKeys, CanonMember, CanonMembers;
    NoMembers(m, v);
    buf.Append("{");
    ghost var start := buf.text;
    for i := 0 to |keys|
      invariant buf.text == start + CanonMembers(keys[..i], m, v)
    {
      MembersSnoc(keys[..i], keys[i], m, v);
      assert keys[..i + 1] == keys[..i] + [keys[i]];
      if i > 0 {
        buf.Append(",");
      }
      WriteMember(buf, keys[i], m, v);
      Continued(start, CanonMembers(keys[..i], m, v), CanonMember(keys[i], m, v));
    }
    assert keys[..|keys|] == keys;
    buf.Append("}");
  }

  lemma NoItems()
    ensures CanonItems([]) == ""
  {
  }

  lemma NoMembers(m: map<string, Json>, v: Json)
    requires v == Obj(m)
    ensures CanonMembers([], m, v) == ""
  {
  }

  lemma Continued(start: string, front: string, last: string)
    ensures start + front + "," + last == start + (front + "," + last)
    ensures front == "" ==> start + front + last == start + last
  {
  }
}
