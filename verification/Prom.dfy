/** The check_state section of the Prometheus textfile, and a reader for it. */
module Prom {
  import opened Wrappers
  import opened Buffers
  import opened Text
  import opened Sequences
  import opened Sorting
  import opened Report

  // ---------------------------------------------------------------- label values

  function EscapeLabelChar(c: char): (e: string)
    ensures e != ""
  {
    if c == '\\' then "\\\\" else if c == '"' then "\\\"" else if c == '\n' then "\\n" else [c]
  }

  function EscapeLabel(v: string): string {
    if v == "" then "" else EscapeLabelChar(v[0]) + EscapeLabel(v[1..])
  }

  function LabelValue(v: string): string {
    "\"" + EscapeLabel(v) + "\""
  }

  lemma {:induction false} EscapeLabelSnoc(v: string, c: char)
    ensures EscapeLabel(v + [c]) == EscapeLabel(v) + EscapeLabelChar(c)
  {
    hide EscapeLabelChar;
    if v == "" {
      assert [c][1..] == "" && v + [c] == [c];
    } else {
      assert (v + [c])[1..] == v[1..] + [c];
      EscapeLabelSnoc(v[1..], c);
    }
  }

  lemma EscapeNothing()
    ensures EscapeLabel("") == ""
  {
  }

  /** promLabelValue: a builder, one character at a time. */
  method PromLabelValue(v: string) returns (r: string)
    ensures r == LabelValue(v)
  {
    hide EscapeLabel;
    var b := "\"";
    assert EscapeLabel([]) == "" by { EscapeNothing(); }
    for i := 0 to |v|
      invariant b == "\"" + EscapeLabel(v[..i])
    {
      EscapeLabelSnoc(v[..i], v[i]);
      assert v[..i + 1] == v[..i] + [v[i]];
      ConcatAssociative("\"", EscapeLabel(v[..i]), EscapeLabelChar(v[i]));
      match v[i] {
        case '\\' => b := b + "\\\\";
        case '"' => b := b + "\\\"";
        case '\n' => b := b + "\\n";
        case c => b := b + [c];
      }
    }
    assert v[..|v|] == v;
    b := b + "\"";
    return b;
  }

  /** A label value, from behind its opening quote. */
  function ReadLabel(t: string): (r: Read<string>)
    ensures r.Got? ==> |r.rest| < |t|
    decreases |t|
  {
    if t == "" || t[0] == '\n' then Bad
    else if t[0] == '"' then Got("", t[1..])
    else if t[0] != '\\' then Prepend(t[0], ReadLabel(t[1..]))
    else if |t| < 2 then Bad
    else if t[1] == 'n' then Prepend('\n', ReadLabel(t[2..]))
    else if t[1] == '\\' || t[1] == '"' then Prepend(t[1], ReadLabel(t[2..]))
    else Bad
  }

  lemma LabelCharReadBack(c: char, t: string)
    ensures ReadLabel(EscapeLabelChar(c) + t) == Prepend(c, ReadLabel(t))
  {
    var u := EscapeLabelChar(c) + t;
    if |EscapeLabelChar(c)| == 1 {
      assert u[1..] == t;
    } else {
      assert u[2..] == t;
    }
  }

  /** The escape has an inverse: the first unescaped quote is the closing one, and no line is broken. */
  lemma {:induction false} LabelReadBack(v: string, t: string)
    ensures ReadLabel(EscapeLabel(v) + "\"" + t) == Got(v, t)
    ensures '\n' !in EscapeLabel(v)
  {
    if v == "" {
      assert EscapeLabel(v) + "\"" + t == "\"" + t;
      assert ("\"" + t)[1..] == t;
    } else {
      var tail := EscapeLabel(v[1..]) + "\"" + t;
      assert EscapeLabel(v) + "\"" + t == EscapeLabelChar(v[0]) + tail;
      hide ReadLabel;
      LabelCharReadBack(v[0], tail);
      LabelReadBack(v[1..], t);
      assert v == [v[0]] + v[1..];
    }
  }

  lemma LabelInjective(a: string, b: string)
    ensures LabelValue(a) == LabelValue(b) <==> a == b
  {
    hide EscapeLabel, ReadLabel;
    LabelReadBack(a, "");
    LabelReadBack(b, "");
    assert LabelValue(a)[1..] == EscapeLabel(a) + "\"" + "" && LabelValue(b)[1..] == EscapeLabel(b) + "\"" + "";
  }

  // ---------------------------------------------------------------- rows

  const METRIC := "copyfail_validator_check_state"
  const HELP_TEXT := "Result of one mitigation " + "check (1 = current state)."
  const KIND := "gauge"

  function HelpLine(name: string, help: string): string {
    "# HELP " + name + " " + help + "\n"
  }

  function TypeLine(name: string, kind: string): string {
    "# TYPE " + name + " " + kind + "\n"
  }

  // The four state labels, in the order they are emitted.
  datatype StateLabel = LPass | LFail | LSkip | LError

  const STATE_LABELS := [LPass, LFail, LSkip, LError]

  function StateOf(l: StateLabel): State {
    match l
    case LPass => Pass
    case LFail => Fail
    case LSkip => Skip
    case LError => Error
  }

  function NameOf(l: StateLabel): string {
    match l
    case LPass => "pass"
    case LFail => "fail"
    case LSkip => "skip"
    case LError => "error"
  }

  // One sample as a scraper sees it.
  datatype Series = Series(checkId: string, severity: string, state: string, value: nat)

  function SeriesFor(r: Result, l: StateLabel): Series {
    Series(r.checkId, r.severity, NameOf(l), if r.state == StateOf(l) then 1 else 0)
  }

  function Digit(n: nat): string {
    if n == 0 then "0" else "1"
  }

  function RowText(s: Series): string {
    METRIC + "{check_id=" + LabelValue(s.checkId) + ",severity=" + LabelValue(s.severity)
    + ",state=" + LabelValue(s.state) + "} " + Digit(s.value) + "\n"
  }

  function Rows(series: seq<Series>): string {
    if series == [] then "" else RowText(series[0]) + Rows(series[1..])
  }

  function SeriesOf(results: seq<Result>): (s: seq<Series>)
    ensures |s| == 4 * |results|
  {
    if results == [] then []
    else
      [SeriesFor(results[0], LPass), SeriesFor(results[0], LFail),
       SeriesFor(results[0], LSkip), SeriesFor(results[0], LError)]
      + SeriesOf(results[1..])
  }

  /** The check_state section for results in this order. */
  function SectionText(order: seq<Result>): string {
    HelpLine(METRIC, HELP_TEXT) + TypeLine(METRIC, KIND) + Rows(SeriesOf(order)) + "\n"
  }

  ghost predicate SortedCopy(results: seq<Result>, order: seq<Result>) {
    SortedBy((r: Result) => r.checkId, order) && multiset(order) == multiset(results)
  }

  /** sortedByCheckID: a sorted copy; the argument is a value and stays as it is. */
  method SortedByCheckID(results: seq<Result>) returns (order: seq<Result>)
    ensures SortedCopy(results, order)
  {
    var copy := new Result[|results|](i requires 0 <= i < |results| => results[i]);
    assert copy[..] == results;
    SortInPlace((r: Result) => r.checkId, copy);
    order := copy[..];
  }

  lemma {:induction false} RowsConcat(a: seq<Series>, b: seq<Series>)
    ensures Rows(a + b) == Rows(a) + Rows(b)
  {
    hide RowText;
    if a == [] {
      assert a + b == b;
    } else {
      assert (a + b)[1..] == a[1..] + b;
      RowsConcat(a[1..], b);
      assert RowText(a[0]) + (Rows(a[1..]) + Rows(b)) == RowText(a[0]) + Rows(a[1..]) + Rows(b);
    }
  }

  lemma {:induction false} SeriesOfConcat(a: seq<Result>, b: seq<Result>)
    ensures SeriesOf(a + b) == SeriesOf(a) + SeriesOf(b)
  {
    hide SeriesFor;
    if a == [] {
      assert a + b == b;
    } else {
      assert (a + b)[1..] == a[1..] + b;
      SeriesOfConcat(a[1..], b);
    }
  }

  function FourSeries(r: Result, n: nat): (s: seq<Series>)
    requires n <= 4
    ensures |s| == n
  {
    seq(n, i requires 0 <= i < n => SeriesFor(r, STATE_LABELS[i]))
  }

  lemma FourIsAll(r: Result)
    ensures FourSeries(r, 4) == SeriesOf([r])
  {
    assert [r][1..] == [];
  }

  /** The four rows of one result. */
  method WriteRows(buf: Buffer, r: Result)
    modifies buf
    ensures buf.text == old(buf.text) + Rows(SeriesOf([r]))
  {
    hide SeriesFor, LabelValue, RowText, SeriesOf;
    for i := 0 to 4
      invariant buf.text == old(buf.text) + Rows(FourSeries(r, i))
    {
      WriteRow(buf, r, STATE_LABELS[i]);
      assert FourSeries(r, i + 1) == FourSeries(r, i) + [SeriesFor(r, STATE_LABELS[i])];
      RowsConcat(FourSeries(r, i), [SeriesFor(r, STATE_LABELS[i])]);
      OneRow(SeriesFor(r, STATE_LABELS[i]));
    }
    FourIsAll(r);
  }

  lemma OneRow(s: Series)
    ensures Rows([s]) == RowText(s)
  {
    hide RowText;
    assert [s][1..] == [];
    assert Rows([]) == "";
  }

  method WriteRow(buf: Buffer, r: Result, l: StateLabel)
    modifies buf
    ensures buf.text == old(buf.text) + RowText(SeriesFor(r, l))
  {
    var val := 0;
    if r.state == StateOf(l) {
      val := 1;
    }
    var id := PromLabelValue(r.checkId);
    var severity := PromLabelValue(r.severity);
    var state := PromLabelValue(NameOf(l));
    hide LabelValue, NameOf;
    buf.Append(METRIC + "{check_id=" + id + ",severity=" + severity + ",state=" + state + "} " + Digit(val) + "\n");
  }

  lemma RowsOfOneMore(order: seq<Result>, i: nat)
    requires i < |order|
    ensures Rows(SeriesOf(order[..i + 1])) == Rows(SeriesOf(order[..i])) + Rows(SeriesOf([order[i]]))
  {
    hide SeriesOf, Rows;
    SeriesOfConcat(order[..i], [order[i]]);
    RowsConcat(SeriesOf(order[..i]), SeriesOf([order[i]]));
    assert order[..i + 1] == order[..i] + [order[i]];
  }

  lemma NoRows()
    ensures Rows(SeriesOf([])) == ""
  {
  }

  /** The rows of all results, in the given order. */
  method WriteAllRows(buf: Buffer, sorted: seq<Result>)
    modifies buf
    ensures buf.text == old(buf.text) + Rows(SeriesOf(sorted))
  {
    hide SeriesOf, Rows;
    NoRows();
    for i := 0 to |sorted|
      invariant buf.text == old(buf.text) + Rows(SeriesOf(sorted[..i]))
    {
      RowsOfOneMore(sorted, i);
      ConcatAssociative(old(buf.text), Rows(SeriesOf(sorted[..i])), Rows(SeriesOf([sorted[i]])));
      WriteRows(buf, sorted[i]);
    }
    assert sorted[..|sorted|] == sorted;
  }

  /** writeCheckStateMetric. */
  method WriteCheckStateMetric(buf: Buffer, results: seq<Result>) returns (ghost order: seq<Result>)
    modifies buf
    ensures SortedCopy(results, order)
    ensures buf.text == old(buf.text) + SectionText(order)
  {
    hide SeriesOf, SortedCopy, HelpLine, TypeLine, Rows;
    buf.Append(HelpLine(METRIC, HELP_TEXT));
    buf.Append(TypeLine(METRIC, KIND));
    var sorted := SortedByCheckID(results);
    order := sorted;
    WriteAllRows(buf, sorted);
    buf.Append("\n");
  }

  // ---------------------------------------------------------------- reading back

  /** name= and a quoted label value. */
  function ReadNamed(t: string, name: string): (r: Read<string>)
    ensures r.Got? ==> |r.rest| < |t|
  {
    if StartsWith(t, name) && |t| > |name| && t[|name|] == '"' then ReadLabel(t[|name| + 1..]) else Bad
  }

  function ReadEnd(t: string): (r: Read<nat>)
    ensures r.Got? ==> |r.rest| < |t|
  {
    if StartsWith(t, "} 0\n") then Got(0, t[4..])
    else if StartsWith(t, "} 1\n") then Got(1, t[4..])
    else Bad
  }

  const ROW_START := "copyfail_validator_check_state{check_id="

  lemma RowStartIs()
    ensures METRIC + "{check_id=" == ROW_START
  {
  }

  function ReadRow(t: string): (r: Read<Series>)
    ensures r.Got? ==> |r.rest| < |t|
  {
    match ReadNamed(t, ROW_START)
    case Bad => Bad
    case Got(id, t1) =>
      match ReadNamed(t1, ",severity=")
      case Bad => Bad
      case Got(sev, t2) =>
        match ReadNamed(t2, ",state=")
        case Bad => Bad
        case Got(st, t3) =>
          match ReadEnd(t3)
          case Bad => Bad
          case Got(n, t4) => Got(Series(id, sev, st, n), t4)
  }

  /** All rows up to the blank line that ends the section. */
  function ReadRows(t: string): (r: Read<seq<Series>>)
    decreases |t|
  {
    if t == "" then Bad
    else if t[0] == '\n' then Got([], t[1..])
    else
      match ReadRow(t)
      case Bad => Bad
      case Got(s, rest) =>
        match ReadRows(rest)
        case Bad => Bad
        case Got(ss, rest2) => Got([s] + ss, rest2)
  }

  function SkipLine(t: string): string {
    if t == "" then "" else if t[0] == '\n' then t[1..] else SkipLine(t[1..])
  }

  /** The section: a help line, the type line of a gauge, then rows. */
  function ReadSection(t: string): Read<seq<Series>> {
    if !StartsWith(t, HELP_START + HELP_WORDS) then Bad
    else
      var u := SkipLine(t);
      if StartsWith(u, GAUGE_LINE) then ReadRows(u[|GAUGE_LINE|..]) else Bad
  }

  const HELP_START := "# HELP copyfail_validator_check_state "
  const HELP_WORDS := "Result of one mitigation check (1 = current state)."
  const GAUGE_LINE := "# TYPE copyfail_validator_check_state gauge\n"

  lemma NamedReadBack(name: string, v: string, t: string)
    ensures ReadNamed(name + LabelValue(v) + t, name) == Got(v, t)
  {
    hide ReadLabel, EscapeLabel;
    var u := name + LabelValue(v) + t;
    assert u[..|name|] == name && u[|name|] == '"';
    assert u[|name| + 1..] == EscapeLabel(v) + "\"" + t;
    LabelReadBack(v, t);
  }

  lemma EndReadBack(n: nat, t: string)
    requires n <= 1
    ensures ReadEnd("} " + Digit(n) + "\n" + t) == Got(n, t)
  {
    var u := "} " + Digit(n) + "\n" + t;
    assert u[..4] == "} " + Digit(n) + "\n" && u[4..] == t;
    assert (u[..4])[2] == Digit(n)[0];
    assert "} 0\n"[2] == '0' && "} 1\n"[2] == '1';
  }

  lemma RowReadBack(s: Series, t: string)
    requires s.value <= 1
    ensures ReadRow(RowText(s) + t) == Got(s, t)
  {
    hide ReadNamed, ReadEnd, LabelValue, Digit, METRIC, ROW_START;
    RowStartIs();
    var t3 := "} " + Digit(s.value) + "\n" + t;
    var t2 := ",state=" + LabelValue(s.state) + t3;
    var t1 := ",severity=" + LabelValue(s.severity) + t2;
    var t0 := METRIC + "{check_id=" + LabelValue(s.checkId) + t1;
    RowPieces(s, t, t3, t2, t1);
    NamedReadBack(METRIC + "{check_id=", s.checkId, t1);
    NamedReadBack(",severity=", s.severity, t2);
    NamedReadBack(",state=", s.state, t3);
    EndReadBack(s.value, t);
  }

  lemma RowPieces(s: Series, t: string, t3: string, t2: string, t1: string)
    requires t3 == "} " + Digit(s.value) + "\n" + t
    requires t2 == ",state=" + LabelValue(s.state) + t3
    requires t1 == ",severity=" + LabelValue(s.severity) + t2
    ensures RowText(s) + t == METRIC + "{check_id=" + LabelValue(s.checkId) + t1
  {
    hide LabelValue, Digit;
    var a := METRIC + "{check_id=" + LabelValue(s.checkId);
    var b, c := ",severity=" + LabelValue(s.severity), ",state=" + LabelValue(s.state);
    var d := "} " + Digit(s.value) + "\n";
    assert RowText(s) == a + b + c + d;
    assert a + b + c + d + t == a + (b + (c + (d + t)));
  }

  lemma RowStart(s: Series)
    ensures RowText(s) != "" && RowText(s)[0] == 'c'
  {
    hide LabelValue, Digit;
  }

  lemma {:induction false} RowsReadBack(series: seq<Series>, t: string)
    requires forall i :: 0 <= i < |series| ==> series[i].value <= 1
    ensures ReadRows(Rows(series) + "\n" + t) == Got(series, t)
  {
    hide RowText, ReadRow, ReadRows;
    if series == [] {
      assert Rows(series) + "\n" + t == "\n" + t;
      BlankLineEnds(t);
    } else {
      var tail := Rows(series[1..]) + "\n" + t;
      assert Rows(series) + "\n" + t == RowText(series[0]) + tail;
      RowsReadBack(series[1..], t);
      FirstRow(series[0], tail);
      assert series == [series[0]] + series[1..];
    }
  }

  lemma BlankLineEnds(t: string)
    ensures ReadRows("\n" + t) == Got([], t)
  {
    assert ("\n" + t)[1..] == t;
  }

  lemma FirstRow(s: Series, tail: string)
    requires s.value <= 1 && ReadRows(tail).Got?
    ensures ReadRows(RowText(s) + tail) == Got([s] + ReadRows(tail).value, ReadRows(tail).rest)
  {
    hide RowText, ReadRow;
    RowStart(s);
    RowReadBack(s, tail);
  }

  lemma {:induction false} SkipLineIs(line: string, t: string)
    requires '\n' !in line
    ensures SkipLine(line + "\n" + t) == t
  {
    if line == "" {
      assert line + "\n" + t == "\n" + t;
      assert ("\n" + t)[1..] == t;
    } else {
      assert (line + "\n" + t)[1..] == line[1..] + "\n" + t;
      SkipLineIs(line[1..], t);
    }
  }

  lemma HelpStartIs()
    ensures "# HELP " + METRIC + " " == HELP_START && '\n' !in HELP_START
  {
  }

  lemma HelpTextIsLine()
    ensures '\n' !in HELP_TEXT
  {
    assert '\n' !in "Result of one mitigation ";
    assert '\n' !in "check (1 = current state).";
  }

  lemma HelpWordsAre()
    ensures HELP_TEXT == HELP_WORDS
  {
  }

  lemma HelpLineReadBack(t: string)
    ensures StartsWith(HelpLine(METRIC, HELP_TEXT) + t, HELP_START + HELP_WORDS)
    ensures SkipLine(HelpLine(METRIC, HELP_TEXT) + t) == t
  {
    hide SkipLine, METRIC, HELP_TEXT, HELP_START;
    HelpStartIs();
    HelpTextIsLine();
    HelpWordsAre();
    hide HELP_WORDS;
    HeaderLine(HELP_START, HELP_TEXT, t);
  }

  lemma HeaderLine(front: string, text: string, t: string)
    requires '\n' !in front && '\n' !in text
    ensures SkipLine(front + text + "\n" + t) == t
    ensures StartsWith(front + text + "\n" + t, front + text)
  {
    hide SkipLine;
    SkipLineIs(front + text, t);
    assert (front + text + "\n" + t)[..|front + text|] == front + text;
  }

  lemma TypeLineIs()
    ensures TypeLine(METRIC, KIND) == GAUGE_LINE
  {
  }

  lemma TypeLineReadBack(t: string)
    ensures StartsWith(TypeLine(METRIC, KIND) + t, GAUGE_LINE)
    ensures (TypeLine(METRIC, KIND) + t)[|GAUGE_LINE|..] == t
  {
    TypeLineIs();
    hide TypeLine, GAUGE_LINE;
  }

  lemma {:induction false} SeriesValues(results: seq<Result>)
    ensures forall i :: 0 <= i < |SeriesOf(results)| ==> SeriesOf(results)[i].value <= 1
  {
    if results != [] {
      SeriesValues(results[1..]);
    }
  }

  /** The whole section reads back as exactly four series per result, in the order written. */
  lemma SectionReadsBack(order: seq<Result>, t: string)
    ensures ReadSection(SectionText(order) + t) == Got(SeriesOf(order), t)
  {
    hide SeriesOf, Rows, ReadRows, SkipLine, HelpLine, TypeLine;
    SeriesValues(order);
    RowsReadBack(SeriesOf(order), t);
    var rows := Rows(SeriesOf(order)) + "\n" + t;
    HelpLineReadBack(TypeLine(METRIC, KIND) + rows);
    TypeLineReadBack(rows);
    assert SectionText(order) + t == HelpLine(METRIC, HELP_TEXT) + (TypeLine(METRIC, KIND) + rows);
  }

  /** The four states in the order of their rows, and the label of each. */
  const STATES := [(Pass, "pass"), (Fail, "fail"), (Skip, "skip"), (State.Error, "error")]

  /** Series 4i + k of the section is result i's row for state k: its id, its severity, 1 if it is in that state. */
  lemma {:induction false} SeriesAt(order: seq<Result>, i: nat, k: nat)
    requires i < |order| && k < 4
    ensures |SeriesOf(order)| == 4 * |order|
    ensures var s := SeriesOf(order)[4 * i + k];
      && s.checkId == order[i].checkId && s.severity == order[i].severity && s.state == STATES[k].1
      && s.value == if order[i].state == STATES[k].0 then 1 else 0
    decreases i
  {
    if i > 0 {
      SeriesAt(order[1..], i - 1, k);
      assert SeriesOf(order)[4..] == SeriesOf(order[1..]);
      assert SeriesOf(order)[4 * i + k] == SeriesOf(order)[4..][4 * (i - 1) + k];
      assert order[1..][i - 1] == order[i];
    }
  }

  /** s is the row of r for one state. */
  predicate RowOf(s: Series, r: Result, state: State, name: string) {
    && s.checkId == r.checkId && s.severity == r.severity && s.state == name
    && s.value == if r.state == state then 1 else 0
  }

  /** Reading the section gives, result by result, what a scraper should see. */
  lemma SectionRows(order: seq<Result>, t: string)
    ensures var r := ReadSection(SectionText(order) + t);
      && r.Got? && r.rest == t && |r.value| == 4 * |order|
      && forall i: nat, k: nat :: i < |order| && k < 4 ==>
           RowOf(r.value[4 * i + k], order[i], STATES[k].0, STATES[k].1)
  {
    hide SectionText, ReadSection, SeriesOf;
    SectionReadsBack(order, t);
    forall i: nat, k: nat | i < |order| && k < 4
      ensures RowOf(SeriesOf(order)[4 * i + k], order[i], STATES[k].0, STATES[k].1)
    {
      SeriesAt(order, i, k);
    }
  }

  predicate PlainLabel(v: string) {
    '\\' !in v && '"' !in v && '\n' !in v
  }

  /** A label value is written as it is exactly when it has nothing to escape. */
  lemma {:induction false} LabelAsItIs(v: string)
    ensures EscapeLabel(v) == v <==> PlainLabel(v)
    ensures |EscapeLabel(v)| >= |v|
  {
    if v != "" {
      LabelAsItIs(v[1..]);
      assert v == [v[0]] + v[1..];
      LabelCharAsItIs(v[0]);
      hide EscapeLabelChar;
      var e, rest := EscapeLabelChar(v[0]), EscapeLabel(v[1..]);
      if EscapeLabel(v) == v {
        assert |e| == 1 && (e + rest)[..1] == e && (e + rest)[1..] == rest && v[..1] == [v[0]];
      }
    }
  }

  lemma LabelCharAsItIs(c: char)
    ensures EscapeLabelChar(c) == [c] <==> c != '\\' && c != '"' && c != '\n'
    ensures |EscapeLabelChar(c)| >= 1
  {
  }

  /** A row whose labels have nothing to escape, letter for letter. */
  lemma PlainRow(s: Series)
    requires PlainLabel(s.checkId) && PlainLabel(s.severity) && PlainLabel(s.state) && s.value <= 1
    ensures RowText(s)
         == "copyfail_validator_check_state{check_id=" + ("\"" + s.checkId + "\"") + ",severity="
            + ("\"" + s.severity + "\"") + ",state=" + ("\"" + s.state + "\"") + "} "
            + (if s.value == 1 then "1" else "0") + "\n"
  {
    hide EscapeLabel, METRIC;
    LabelAsItIs(s.checkId);
    LabelAsItIs(s.severity);
    LabelAsItIs(s.state);
    RowStartIs();
  }

  // ---------------------------------------------------------------- totals

  function Total(series: seq<Series>, state: string): nat {
    if series == [] then 0
    else (if series[0].state == state then series[0].value else 0) + Total(series[1..], state)
  }

  lemma {:induction false} TotalConcat(a: seq<Series>, b: seq<Series>, state: string)
    ensures Total(a + b, state) == Total(a, state) + Total(b, state)
  {
    if a == [] {
      assert a + b == b;
    } else {
      assert (a + b)[1..] == a[1..] + b;
      TotalConcat(a[1..], b, state);
    }
  }

  lemma NamesDiffer(k: StateLabel, l: StateLabel)
    ensures NameOf(k) == NameOf(l) <==> k == l
  {
    assert "pass"[0] == 'p' && "fail"[0] == 'f' && "skip"[0] == 's' && "error"[0] == 'e';
  }

  lemma TotalOfOne(r: Result, l: StateLabel)
    ensures Total(SeriesOf([r]), NameOf(l)) == if r.state == StateOf(l) then 1 else 0
  {
    hide NameOf;
    NamesDiffer(LPass, l);
    NamesDiffer(LFail, l);
    NamesDiffer(LSkip, l);
    NamesDiffer(LError, l);
    var a, b, c, d := SeriesFor(r, LPass), SeriesFor(r, LFail), SeriesFor(r, LSkip), SeriesFor(r, LError);
    assert [r][1..] == [] && SeriesOf([r]) == [a, b, c, d];
    var n := NameOf(l);
    assert [d][1..] == [] && [c, d][1..] == [d] && [b, c, d][1..] == [c, d] && [a, b, c, d][1..] == [b, c, d];
    assert Total([d], n) == if d.state == n then d.value else 0;
    assert Total([c, d], n) == (if c.state == n then c.value else 0) + Total([d], n);
    assert Total([b, c, d], n) == (if b.state == n then b.value else 0) + Total([c, d], n);
  }

  lemma {:induction false} TotalIsCount(results: seq<Result>, l: StateLabel)
    ensures Total(SeriesOf(results), NameOf(l)) == Count(results, StateOf(l), false)
  {
    hide NameOf;
    if results != [] {
      hide SeriesOf;
      assert results == [results[0]] + results[1..];
      SeriesOfConcat([results[0]], results[1..]);
      TotalConcat(SeriesOf([results[0]]), SeriesOf(results[1..]), NameOf(l));
      TotalOfOne(results[0], l);
      TotalIsCount(results[1..], l);
    }
  }

  /** Summing the values of a state over all rows gives the report's own tally, whatever order the sort left. */
  lemma TotalsAreSummary(results: seq<Result>, order: seq<Result>)
    requires SortedCopy(results, order)
    ensures var s := SummaryOf(results);
            && Total(SeriesOf(order), "pass") == s.pass && Total(SeriesOf(order), "fail") == s.fail
            && Total(SeriesOf(order), "skip") == s.skip && Total(SeriesOf(order), "error") == s.error
            && |SeriesOf(order)| == 4 * s.total
  {
    hide SeriesOf, Total, Count, SortedBy;
    TotalIsCount(order, LPass);
    TotalIsCount(order, LFail);
    TotalIsCount(order, LSkip);
    TotalIsCount(order, LError);
    SummaryPermutation(order, results);
  }
}
