/** The redactor's pattern, as it is written: the keyword group as an expression, and what it makes of a text. */
module RedactPattern {
  import opened Wrappers
  import opened Redactor = Redact
  import RedactLines

  // ---------------------------------------------------------------- expressions

  // The forms the keyword group uses: literal text, a character class, an optional part, sequence, choice.
  datatype Expr =
    | Lit(text: string) | OneOf(chars: string) | Maybe(e: Expr) | Then(a: Expr, b: Expr) | Or(a: Expr, b: Expr)

  /** (?i): the lower-case letter a character folds to. U+017F folds to s and U+212A to k. */
  function Fold(c: char): char {
    if 'A' <= c <= 'Z' then ((c as int) + 32) as char
    else if c == '\U{017F}' then 's'
    else if c == '\U{212A}' then 'k'
    else c
  }

  function FoldAll(w: string): (r: string)
    ensures |r| == |w|
  {
    seq(|w|, i requires 0 <= i < |w| => Fold(w[i]))
  }

  /** The language of an expression, under folding. */
  predicate In(e: Expr, w: string)
    decreases e
  {
    match e
    case Lit(text) => FoldAll(w) == text
    case OneOf(chars) => |w| == 1 && Fold(w[0]) in chars
    case Maybe(a) => w == "" || In(a, w)
    case Then(a, b) => exists i :: 0 <= i <= |w| && In(a, w[..i]) && In(b, w[i..])
    case Or(a, b) => In(a, w) || In(b, w)
  }

  // password|passwd|token|secret|bearer|api[_-]?key|aws_(?:access_key(?:_id)?|secret_(?:access_)?key(?:_id)?|
  // session_token)|authorization
  const ID := Maybe(Lit("_id"))
  const API := Then(Lit("api"), Then(Maybe(OneOf("_-")), Lit("key")))
  const ACCESS := Then(Lit("access_key"), ID)
  const SECRET := Then(Lit("secret_"), Then(Maybe(Lit("access_")), Then(Lit("key"), ID)))
  const AWS := Then(Lit("aws_"), Or(ACCESS, Or(SECRET, Lit("session_token"))))
  const GROUP :=
    Or(Lit("password"), Or(Lit("passwd"), Or(Lit("token"), Or(Lit("secret"), Or(Lit("bearer"),
    Or(API, Or(AWS, Lit("authorization"))))))))

  // ---------------------------------------------------------------- the words of an expression

  function Cross(xs: set<string>, ys: set<string>): set<string> {
    set x, y | x in xs && y in ys :: x + y
  }

  function Words(e: Expr): set<string> {
    match e
    case Lit(text) => {text}
    case OneOf(chars) => set c | c in chars :: [c]
    case Maybe(a) => Words(a) + {""}
    case Then(a, b) => Cross(Words(a), Words(b))
    case Or(a, b) => Words(a) + Words(b)
  }

  /** A text is in the language exactly when it folds to one of the expression's words. */
  lemma {:induction false} LanguageIsWords(e: Expr, w: string)
    ensures In(e, w) <==> FoldAll(w) in Words(e)
    decreases e
  {
    match e
    case Lit(_) =>
    case OneOf(chars) =>
      if |w| == 1 { assert FoldAll(w) == [Fold(w[0])]; }
    case Maybe(a) =>
      LanguageIsWords(a, w);
      assert FoldAll(w) == "" <==> w == "";
    case Then(a, b) => SequenceIsCross(a, b, w);
    case Or(a, b) =>
      LanguageIsWords(a, w);
      LanguageIsWords(b, w);
  }

  lemma SequenceIsCross(a: Expr, b: Expr, w: string)
    ensures In(Then(a, b), w) <==> FoldAll(w) in Cross(Words(a), Words(b))
    decreases Then(a, b), 0
  {
    hide Words, FoldAll;
    forall i | 0 <= i <= |w|
      ensures In(a, w[..i]) <==> FoldAll(w)[..i] in Words(a)
      ensures In(b, w[i..]) <==> FoldAll(w)[i..] in Words(b)
    {
      LanguageIsWords(a, w[..i]);
      LanguageIsWords(b, w[i..]);
      FoldPieces(w, i);
    }
    CrossIsSplit(Words(a), Words(b), FoldAll(w));
  }

  lemma FoldPieces(w: string, i: nat)
    requires i <= |w|
    ensures FoldAll(w[..i]) == FoldAll(w)[..i] && FoldAll(w[i..]) == FoldAll(w)[i..]
  {
  }

  lemma CrossIsSplit(xs: set<string>, ys: set<string>, w: string)
    ensures w in Cross(xs, ys) <==> exists i :: 0 <= i <= |w| && w[..i] in xs && w[i..] in ys
  {
    if w in Cross(xs, ys) {
      var x, y :| x in xs && y in ys && w == x + y;
      assert w[..|x|] == x && w[|x|..] == y;
    }
    if i :| 0 <= i <= |w| && w[..i] in xs && w[i..] in ys {
      assert w == w[..i] + w[i..];
    }
  }

  function Keywords(): set<string> {
    set w | w in KEYWORDS
  }

  lemma IdWords()
    ensures Words(ID) == {"", "_id"}
  {
  }

  lemma AccessWords()
    ensures Words(ACCESS) == {"access_key", "access_key_id"}
  {
    IdWords();
    assert "access_key" + "" == "access_key" && "access_key" + "_id" == "access_key_id";
    CrossTwo("access_key", "", "_id");
  }

  lemma CrossTwo(x: string, y: string, z: string)
    ensures Cross({x}, {y, z}) == {x + y, x + z}
  {
  }

  lemma KeyWords()
    ensures Words(Then(Lit("key"), ID)) == {"key", "key_id"}
  {
    IdWords();
    assert "key" + "" == "key" && "key" + "_id" == "key_id";
    CrossTwo("key", "", "_id");
  }

  lemma DashWords()
    ensures Words(Maybe(OneOf("_-"))) == {"", "_", "-"}
  {
    assert "_-"[0] == '_' && "_-"[1] == '-';
  }

  lemma CrossOne(a: string, b: string, c: string, y: string)
    ensures Cross({a, b, c}, {y}) == {a + y, b + y, c + y}
  {
  }

  lemma DashKeyWords()
    ensures Words(Then(Maybe(OneOf("_-")), Lit("key"))) == {"key", "_key", "-key"}
  {
    hide Cross;
    DashWords();
    CrossOne("", "_", "-", "key");
    assert "" + "key" == "key" && "_" + "key" == "_key" && "-" + "key" == "-key";
  }

  lemma ApiWords()
    ensures Words(API) == {"apikey", "api_key", "api-key"}
  {
    hide Cross;
    DashKeyWords();
    CrossThree("api", "key", "_key", "-key");
    assert "api" + "key" == "apikey" && "api" + "_key" == "api_key" && "api" + "-key" == "api-key";
  }

  lemma CrossThree(x: string, a: string, b: string, c: string)
    ensures Cross({x}, {a, b, c}) == {x + a, x + b, x + c}
  {
  }

  lemma CrossFour(x: string, a: string, b: string, c: string, d: string)
    ensures Cross({x}, {a, b, c, d}) == {x + a, x + b, x + c, x + d}
  {
  }

  lemma SecretTailWords()
    ensures Words(Then(Maybe(Lit("access_")), Then(Lit("key"), ID)))
         == {"key", "key_id", "access_key", "access_key_id"}
  {
    hide Cross;
    assert Words(Maybe(Lit("access_"))) == {"access_", ""};
    KeyWords();
    TwoByTwo("", "access_", "key", "key_id");
    assert "" + "key" == "key" && "" + "key_id" == "key_id";
    assert "access_" + "key" == "access_key" && "access_" + "key_id" == "access_key_id";
  }

  lemma SecretWords()
    ensures Words(SECRET)
         == {"secret_key", "secret_key_id", "secret_access_key", "secret_access_key_id"}
  {
    hide Cross;
    SecretTailWords();
    CrossFour("secret_", "key", "key_id", "access_key", "access_key_id");
    assert "secret_" + "key" == "secret_key" && "secret_" + "key_id" == "secret_key_id";
    assert "secret_" + "access_key" == "secret_access_key" && "secret_" + "access_key_id" == "secret_access_key_id";
  }

  lemma TwoByTwo(x: string, y: string, a: string, b: string)
    ensures Cross({y, x}, {a, b}) == {x + a, x + b, y + a, y + b}
  {
  }

  lemma AwsWords()
    ensures Words(AWS) == {
      "aws_access_key", "aws_access_key_id", "aws_secret_key", "aws_secret_key_id",
      "aws_secret_access_key", "aws_secret_access_key_id", "aws_session_token"}
  {
    hide Cross;
    AccessWords();
    SecretWords();
    AwsConcat();
    CrossSeven("aws_", "access_key", "access_key_id", "secret_key", "secret_key_id",
               "secret_access_key", "secret_access_key_id", "session_token");
    assert Words(Or(ACCESS, Or(SECRET, Lit("session_token"))))
        == Words(ACCESS) + (Words(SECRET) + {"session_token"})
        == {"access_key", "access_key_id", "secret_key", "secret_key_id",
            "secret_access_key", "secret_access_key_id", "session_token"};
  }

  lemma AwsConcat()
    ensures "aws_" + "access_key" == "aws_access_key" && "aws_" + "access_key_id" == "aws_access_key_id"
    ensures "aws_" + "secret_key" == "aws_secret_key" && "aws_" + "secret_key_id" == "aws_secret_key_id"
    ensures "aws_" + "secret_access_key" == "aws_secret_access_key"
    ensures "aws_" + "secret_access_key_id" == "aws_secret_access_key_id"
    ensures "aws_" + "session_token" == "aws_session_token"
  {
  }

  lemma CrossSeven(x: string, a: string, b: string, c: string, d: string, e: string, f: string, g: string)
    ensures Cross({x}, {a, b, c, d, e, f, g}) == {x + a, x + b, x + c, x + d, x + e, x + f, x + g}
  {
  }

  lemma GroupWords()
    ensures Words(GROUP) == Keywords()
  {
    ApiWords();
    AwsWords();
    ListedKeywords();
    hide Cross, Keywords;
  }

  lemma ListedKeywords()
    ensures Keywords() == {
      "password", "passwd", "token", "secret", "bearer", "apikey", "api_key", "api-key",
      "aws_access_key", "aws_access_key_id", "aws_secret_key", "aws_secret_key_id",
      "aws_secret_access_key", "aws_secret_access_key_id", "aws_session_token", "authorization"}
  {
  }

  // ---------------------------------------------------------------- keywords

  lemma SpelledIsFolded(w: string, k: nat)
    requires k < |KEYWORDS|
    ensures Spells(w, KEYWORDS[k]) <==> FoldAll(w) == KEYWORDS[k]
  {
    KeywordCharacters(k);
    var x := KEYWORDS[k];
    hide KEYWORDS;
    if |w| == |x| {
      forall j | 0 <= j < |w| ensures Folds(w[j], x[j]) <==> FoldAll(w)[j] == x[j] {
      }
    }
  }

  /** What the redactor takes for a keyword is the language of the pattern's keyword group. */
  lemma KeywordIsGroup(w: string)
    ensures IsKeyword(w) <==> In(GROUP, w)
  {
    LanguageIsWords(GROUP, w);
    GroupWords();
    hide Words, In, Spells;
    forall k | 0 <= k < |KEYWORDS| ensures Spells(w, KEYWORDS[k]) <==> FoldAll(w) == KEYWORDS[k] {
      SpelledIsFolded(w, k);
    }
    if In(GROUP, w) {
      var k :| 0 <= k < |KEYWORDS| && KEYWORDS[k] == FoldAll(w);
      assert Spells(w, KEYWORDS[k]);
    }
  }

  function AsciiLower(c: char): char {
    if 'A' <= c <= 'Z' then ((c as int) + 32) as char else c
  }

  predicate SameUpToCase(v: string, w: string) {
    |v| == |w| && forall j :: 0 <= j < |v| ==> AsciiLower(v[j]) == AsciiLower(w[j])
  }

  /** Two words that are equal up to ASCII case are both keywords or neither. */
  lemma CaseIsImmaterial(v: string, w: string)
    requires SameUpToCase(v, w)
    ensures IsKeyword(v) <==> IsKeyword(w)
  {
    hide IsKeyword, In;
    KeywordIsGroup(v);
    KeywordIsGroup(w);
    LanguageIsWords(GROUP, v);
    LanguageIsWords(GROUP, w);
    forall j | 0 <= j < |v| ensures FoldAll(v)[j] == FoldAll(w)[j] {
    }
    assert FoldAll(v) == FoldAll(w);
  }

  // ---------------------------------------------------------------- what is redacted

  /** The class \s: tab, line feed, form feed, carriage return, space. */
  predicate AllGap(s: string) {
    forall i :: 0 <= i < |s| ==> s[i] as int in {9, 10, 12, 13, 32}
  }

  /** Every keyword of the pattern in any case, any spaces, either separator, any value on the rest of the line. */
  lemma KeywordIsRedacted(k: string, gap: string, sep: char, v: string)
    requires In(GROUP, k) && AllGap(gap) && (sep == ':' || sep == '=') && v != "" && '\n' !in v
    ensures Redact(k + gap + [sep] + v) == k + gap + "=" + "***REDACTED***"
  {
    hide IsKeyword, In, Redact, MatchEnd, HasHead;
    var s, p := k + gap + [sep] + v, |k + gap|;
    KeywordIsGroup(k);
    assert s[..|k|] == k && s[..p] == k + gap && s[p] == sep;
    forall j | |k| <= j < p ensures IsReSpace(s[j]) {
      assert s[j] == gap[j - |k|];
    }
    HeadMeaning(s, |k|, p);
    ValueToEnd(s, p + 1);
    HeadMatches(s, p);
    WholeMatch(s, p);
  }

  lemma HeadMatches(s: string, p: nat)
    requires HasHead(s) && p == FirstSep(s) && ValueEnd(s, p + 1) == Some(|s|)
    ensures MatchEnd(s) == Some(|s|)
  {
    hide HasHead, ValueEnd;
  }

  lemma ValueToEnd(s: string, q: nat)
    requires q < |s| && forall j :: q <= j < |s| ==> s[j] != '\n'
    ensures ValueEnd(s, q) == Some(|s|)
  {
    hide ValueEnd;
    ValueFound(s, q);
    assert s[q] != '\n';
  }

  lemma ShortKeywords(k: nat)
    requires k < |KEYWORDS|
    ensures |KEYWORDS[k]| >= 5
    ensures |KEYWORDS[k]| == 5 ==> KEYWORDS[k][0] == 't'
    ensures |KEYWORDS[k]| == 6 ==> KEYWORDS[k][0] != 't'
  {
  }

  lemma NoKeyword(w: string)
    requires |w| <= 6 && (|w| == 5 ==> w[0] == 'o') && (|w| == 6 ==> w[0] == 't')
    ensures !IsKeyword(w)
  {
    if IsKeyword(w) {
      var k :| 0 <= k < |KEYWORDS| && Spells(w, KEYWORDS[k]);
      ShortKeywords(k);
    }
  }

  /** A character between keyword and separator that is neither space nor separator leaves no match. */
  lemma NoMatchAt(c: char, j: nat)
    requires j <= 8 && !IsReSpace(c) && !IsSep(c)
    ensures MatchEnd(("token" + [c] + "=x")[j..]).None?
  {
    hide IsKeyword, ValueEnd;
    var t := "token" + [c] + "=x";
    if j <= 6 {
      assert t[6] == '=' && forall i :: 0 <= i < 5 ==> t[i] == "token"[i];
      assert forall i :: 0 <= i < 5 ==> !IsSep("token"[i]);
      FirstSepIs(t[j..], 6 - j);
      assert t[j..][..6 - j] == t[j..6];
      if j < 6 {
        assert t[j..6][5 - j] == c;
        TrimReSpaceIs(t[j..6], t[j..6]);
      } else {
        assert TrimReSpace("") == "";
      }
      NoKeyword(t[j..6]);
    } else {
      FirstSepIs(t[j..], 8 - j);
    }
  }

  /** Between keyword and separator the pattern lets five characters stand, and it has two separators. */
  lemma OneCharacterBetween(c: char)
    ensures Redact("token" + [c] + "=x") != "token" + [c] + "=x"
       <==> c as int in {9, 10, 12, 13, 32} || c == ':' || c == '='
  {
    hide Redact, MatchEnd;
    var t := "token" + [c] + "=x";
    TokenInGroup();
    if c as int in {9, 10, 12, 13, 32} {
      assert t == "token" + [c] + ['='] + "x";
      KeywordIsRedacted("token", [c], '=', "x");
      Longer(t, "token" + [c] + "=");
    } else if c == ':' || c == '=' {
      assert t == "token" + "" + [c] + "=x";
      KeywordIsRedacted("token", "", c, "=x");
      Longer(t, "token" + "" + "=");
    } else {
      forall j | 0 <= j <= 8 ensures MatchEnd(t[j..]).None? {
        NoMatchAt(c, j);
      }
      RedactLines.NothingFound(t);
    }
  }

  lemma TokenInGroup()
    ensures In(GROUP, "token")
  {
    TokenIsKeyword();
    KeywordIsGroup("token");
  }

  lemma Longer(t: string, front: string)
    requires |t| == 8
    ensures front + "***REDACTED***" != t
  {
  }
}
