/** The fold of `rpm -V` output into a verification result. */
module Rpm {
  import opened Wrappers
  import opened Text
  import opened Sequences

  const FLAG_LENGTH := 9

  datatype Row = Row(flags: string, config: bool, path: string)

  /** splitRPMVerifyLine. */
  function SplitLine(line: string): (r: Option<Row>)
    ensures r.Some? ==> |r.value.flags| == FLAG_LENGTH
  {
    SplitFields(Fields(line))
  }

  function SplitFields(fields: seq<string>): (r: Option<Row>)
    ensures r.Some? ==> |r.value.flags| == FLAG_LENGTH
  {
    if |fields| < 2 || |fields[0]| != FLAG_LENGTH then None
    else if |fields| >= 3 && fields[1] == "c" then Some(Row(fields[0], true, fields[2]))
    else Some(Row(fields[0], false, fields[1]))
  }

  /** A line the loop looks at: not blank, and parseable. */
  function RowOf(raw: string): (r: Option<Row>)
    ensures r.Some? ==> |r.value.flags| == FLAG_LENGTH
  {
    if TrimSpace(TrimRightCR(raw)) == "" then None else SplitLine(TrimRightCR(raw))
  }

  /** strings.TrimRight(raw, "\r"). */
  function TrimRightCR(s: string): string {
    if s != "" && s[|s| - 1] == '\r' then TrimRightCR(s[..|s| - 1]) else s
  }

  // Which of the three messages, and for which line.
  datatype Reason =
    | ConfigOnQueried(path: string)
    | OtherConfig(path: string, flags: string)
    | OtherFile(path: string, flags: string)

  datatype VerifyResult = VerifyResult(
    hashMismatch: bool, sizeChanged: bool, mtimeChanged: bool,
    permsChanged: bool, ownerChanged: bool, groupChanged: bool,
    reasons: seq<Reason>)

  const BLANK := VerifyResult(false, false, false, false, false, false, [])

  function Clean(v: VerifyResult): bool {
    if |v.reasons| > 0 then false
    else !v.hashMismatch && !v.sizeChanged && !v.mtimeChanged && !v.permsChanged && !v.ownerChanged && !v.groupChanged
  }

  // ---------------------------------------------------------------- meaning

  // The six surfaced positions of the flag column: S M 5 . . U G T .
  datatype Flag = Size | Mode | Hash | Owner | Group | MTime

  function Position(f: Flag): nat {
    match f
    case Size => 0
    case Mode => 1
    case Hash => 2
    case Owner => 5
    case Group => 6
    case MTime => 7
  }

  function Letter(f: Flag): char {
    match f
    case Size => 'S'
    case Mode => 'M'
    case Hash => '5'
    case Owner => 'U'
    case Group => 'G'
    case MTime => 'T'
  }

  predicate RowSets(r: Row, f: Flag) {
    Position(f) < |r.flags| && r.flags[Position(f)] == Letter(f)
  }

  /** Some row for the queried path sets the flag. */
  predicate FlagSet(rows: seq<Row>, path: string, f: Flag) {
    exists i :: 0 <= i < |rows| && rows[i].path == path && RowSets(rows[i], f)
  }

  function ReasonsOf(r: Row, path: string): seq<Reason> {
    if r.path == path then (if r.config then [ConfigOnQueried(r.path)] else [])
    else if r.config then [OtherConfig(r.path, r.flags)]
    else [OtherFile(r.path, r.flags)]
  }

  function Reasons(rows: seq<Row>, path: string): seq<Reason> {
    if rows == [] then [] else Reasons(rows[..|rows| - 1], path) + ReasonsOf(rows[|rows| - 1], path)
  }

  function Rows(lines: seq<string>): (rows: seq<Row>)
    ensures forall r :: r in rows ==> |r.flags| == FLAG_LENGTH
  {
    if lines == [] then []
    else Rows(lines[..|lines| - 1]) + (match RowOf(lines[|lines| - 1]) case None => [] case Some(r) => [r])
  }

  function Verdict(rows: seq<Row>, path: string): VerifyResult {
    VerifyResult(FlagSet(rows, path, Hash), FlagSet(rows, path, Size), FlagSet(rows, path, MTime),
                 FlagSet(rows, path, Mode), FlagSet(rows, path, Owner), FlagSet(rows, path, Group),
                 Reasons(rows, path))
  }

  // ---------------------------------------------------------------- the fold

  /** applyRPMFlags: set the booleans a flag column names; a column of another width changes nothing. */
  method ApplyFlags(v: VerifyResult, flags: string) returns (r: VerifyResult)
    ensures |flags| != FLAG_LENGTH ==> r == v
    ensures |flags| == FLAG_LENGTH ==>
      && r.reasons == v.reasons
      && r.sizeChanged == (v.sizeChanged || flags[0] == 'S')
      && r.permsChanged == (v.permsChanged || flags[1] == 'M')
      && r.hashMismatch == (v.hashMismatch || flags[2] == '5')
      && r.ownerChanged == (v.ownerChanged || flags[5] == 'U')
      && r.groupChanged == (v.groupChanged || flags[6] == 'G')
      && r.mtimeChanged == (v.mtimeChanged || flags[7] == 'T')
  {
    if |flags| != FLAG_LENGTH {
      return v;
    }
    var size, perms, hash := v.sizeChanged, v.permsChanged, v.hashMismatch;
    var owner, group, mtime := v.ownerChanged, v.groupChanged, v.mtimeChanged;
    if flags[0] == 'S' {
      size := true;
    }
    if flags[1] == 'M' {
      perms := true;
    }
    if flags[2] == '5' {
      hash := true;
    }
    if flags[5] == 'U' {
      owner := true;
    }
    if flags[6] == 'G' {
      group := true;
    }
    if flags[7] == 'T' {
      mtime := true;
    }
    r := VerifyResult(hash, size, mtime, perms, owner, group, v.reasons);
  }

  lemma FlagSetSnoc(rows: seq<Row>, r: Row, path: string, f: Flag)
    ensures FlagSet(rows + [r], path, f) <==> FlagSet(rows, path, f) || (r.path == path && RowSets(r, f))
  {
    hide RowSets;
    var all := rows + [r];
    assert forall i :: 0 <= i < |rows| ==> all[i] == rows[i];
    assert all[|rows|] == r;
    if FlagSet(rows, path, f) {
      var i :| 0 <= i < |rows| && rows[i].path == path && RowSets(rows[i], f);
      assert all[i].path == path && RowSets(all[i], f);
    }
  }

  lemma VerdictSnoc(rows: seq<Row>, r: Row, path: string)
    ensures var v, w := Verdict(rows, path), Verdict(rows + [r], path);
            && w.reasons == v.reasons + ReasonsOf(r, path)
            && (w.sizeChanged <==> v.sizeChanged || (r.path == path && RowSets(r, Size)))
            && (w.permsChanged <==> v.permsChanged || (r.path == path && RowSets(r, Mode)))
            && (w.hashMismatch <==> v.hashMismatch || (r.path == path && RowSets(r, Hash)))
            && (w.ownerChanged <==> v.ownerChanged || (r.path == path && RowSets(r, Owner)))
            && (w.groupChanged <==> v.groupChanged || (r.path == path && RowSets(r, Group)))
            && (w.mtimeChanged <==> v.mtimeChanged || (r.path == path && RowSets(r, MTime)))
  {
    hide FlagSet, RowSets, ReasonsOf;
    FlagSetSnoc(rows, r, path, Size);
    FlagSetSnoc(rows, r, path, Mode);
    FlagSetSnoc(rows, r, path, Hash);
    FlagSetSnoc(rows, r, path, Owner);
    FlagSetSnoc(rows, r, path, Group);
    FlagSetSnoc(rows, r, path, MTime);
    assert (rows + [r])[..|rows|] == rows;
  }

  /** parseRPMVerify, on the lines of the captured output. */
  method ParseVerify(lines: seq<string>, path: string) returns (result: VerifyResult)
    ensures result == Verdict(Rows(lines), path)
  {
    hide FlagSet, Fields, TrimSpace, TrimRightCR, Rows;
    result := BLANK;
    assert Rows([]) == [] by { RowsOfNothing(); }
    assert Verdict([], path) == BLANK by { NothingSet(path); }
    hide Verdict;
    for i := 0 to |lines|
      invariant result == Verdict(Rows(lines[..i]), path)
    {
      assert lines[..i + 1][..i] == lines[..i];
      ghost var before := Rows(lines[..i]);
      RowsSnoc(lines[..i], lines[i]);
      assert lines[..i + 1] == lines[..i] + [lines[i]];
      var line := TrimRightCR(lines[i]);
      if TrimSpace(line) == "" {
        continue;
      }
      var row := SplitLine(line);
      if row.None? {
        continue;
      }
      VerdictSnoc(before, row.value, path);
      result := AddRow(result, row.value, path);
    }
    assert lines[..|lines|] == lines;
  }

  lemma RowsSnoc(lines: seq<string>, line: string)
    ensures Rows(lines + [line]) == match RowOf(line) case None => Rows(lines) case Some(r) => Rows(lines) + [r]
  {
    hide RowOf;
    assert (lines + [line])[..|lines|] == lines;
  }

  lemma RowsOfNothing()
    ensures Rows([]) == []
  {
  }

  lemma NothingSet(path: string)
    ensures forall f :: !FlagSet([], path, f)
  {
  }

  /** One parseable line, folded in. */
  method AddRow(v: VerifyResult, r: Row, path: string) returns (w: VerifyResult)
    requires |r.flags| == FLAG_LENGTH
    ensures w.reasons == v.reasons + ReasonsOf(r, path)
    ensures w.sizeChanged == (v.sizeChanged || (r.path == path && RowSets(r, Size)))
    ensures w.permsChanged == (v.permsChanged || (r.path == path && RowSets(r, Mode)))
    ensures w.hashMismatch == (v.hashMismatch || (r.path == path && RowSets(r, Hash)))
    ensures w.ownerChanged == (v.ownerChanged || (r.path == path && RowSets(r, Owner)))
    ensures w.groupChanged == (v.groupChanged || (r.path == path && RowSets(r, Group)))
    ensures w.mtimeChanged == (v.mtimeChanged || (r.path == path && RowSets(r, MTime)))
  {
    w := v;
    if r.path == path {
      w := ApplyFlags(w, r.flags);
      if r.config {
        w := w.(reasons := w.reasons + [ConfigOnQueried(r.path)]);
      }
    } else {
      if r.config {
        w := w.(reasons := w.reasons + [OtherConfig(r.path, r.flags)]);
      } else {
        w := w.(reasons := w.reasons + [OtherFile(r.path, r.flags)]);
      }
    }
  }

  // ---------------------------------------------------------------- properties

  lemma {:induction false} NoReasons(rows: seq<Row>, path: string)
    ensures Reasons(rows, path) == [] <==> forall i :: 0 <= i < |rows| ==> rows[i].path == path && !rows[i].config
  {
    if rows != [] {
      var front := rows[..|rows| - 1];
      NoReasons(front, path);
      assert forall i :: 0 <= i < |front| ==> rows[i] == front[i];
    }
  }

  /**
   * Clean holds exactly when every parseable line is about the queried path, carries no config
   * marker and sets none of the six surfaced flags.
   */
  lemma CleanMeaning(lines: seq<string>, path: string)
    ensures Clean(Verdict(Rows(lines), path))
       <==> forall i :: 0 <= i < |Rows(lines)| ==>
              var r := Rows(lines)[i];
              r.path == path && !r.config && forall f :: !RowSets(r, f)
  {
    var rows := Rows(lines);
    hide Rows, RowSets, Reasons;
    NoReasons(rows, path);
    AllFlags(rows, path);
    if Clean(Verdict(rows, path)) {
      forall i | 0 <= i < |rows| ensures forall f :: !RowSets(rows[i], f) {
        forall f ensures !RowSets(rows[i], f) {
          assert !FlagSet(rows, path, f);
        }
      }
    }
  }

  lemma AllFlags(rows: seq<Row>, path: string)
    ensures (exists f :: FlagSet(rows, path, f))
       <==> FlagSet(rows, path, Hash) || FlagSet(rows, path, Size) || FlagSet(rows, path, MTime)
            || FlagSet(rows, path, Mode) || FlagSet(rows, path, Owner) || FlagSet(rows, path, Group)
  {
    hide FlagSet;
    forall f | FlagSet(rows, path, f)
      ensures f == Size || f == Mode || f == Hash || f == Owner || f == Group || f == MTime
    {
    }
  }

  /** A row the parser reads as another file's changes no boolean, and the result is not clean. */
  lemma SiblingsFlipNothing(rows: seq<Row>, r: Row, path: string)
    requires r.path != path
    ensures Verdict(rows + [r], path) == Verdict(rows, path).(reasons := Verdict(rows + [r], path).reasons)
    ensures !Clean(Verdict(rows + [r], path))
  {
    hide RowSets, FlagSet;
    VerdictSnoc(rows, r, path);
  }

  lemma {:induction false} RowsConcat(a: seq<string>, b: seq<string>)
    ensures Rows(a + b) == Rows(a) + Rows(b)
  {
    hide RowOf;
    if b == [] {
      assert a + b == a;
    } else {
      assert (a + b)[..|a + b| - 1] == a + b[..|b| - 1];
      RowsConcat(a, b[..|b| - 1]);
    }
  }

  lemma {:induction false} ReasonsConcat(a: seq<Row>, b: seq<Row>, path: string)
    ensures Reasons(a + b, path) == Reasons(a, path) + Reasons(b, path)
  {
    if b == [] {
      assert a + b == a;
    } else {
      assert (a + b)[..|a + b| - 1] == a + b[..|b| - 1];
      ReasonsConcat(a, b[..|b| - 1], path);
    }
  }

  /** Permuted lines give permuted rows. */
  lemma {:induction false} RowsPermute(a: seq<string>, b: seq<string>)
    requires multiset(a) == multiset(b)
    ensures multiset(Rows(a)) == multiset(Rows(b))
  {
    hide Rows;
    if a == [] {
      EmptyMultiset(b);
    } else {
      assert a[0] in multiset(a);
      var i := Occurrence(b, a[0]);
      TailMultiset(a);
      RowsPermute(a[1..], b[..i] + b[i + 1..]);
      RowsAround(b, i);
      RowsAround(a, 0);
      assert a[..0] + a[1..] == a[1..];
    }
  }

  lemma RowsAround(lines: seq<string>, i: nat)
    requires i < |lines|
    ensures multiset(Rows(lines)) == multiset(Rows([lines[i]])) + multiset(Rows(lines[..i] + lines[i + 1..]))
  {
    hide Rows;
    assert lines == lines[..i] + ([lines[i]] + lines[i + 1..]);
    RowsConcat(lines[..i], [lines[i]] + lines[i + 1..]);
    RowsConcat([lines[i]], lines[i + 1..]);
    RowsConcat(lines[..i], lines[i + 1..]);
  }

  lemma {:induction false} ReasonsPermute(a: seq<Row>, b: seq<Row>, path: string)
    requires multiset(a) == multiset(b)
    ensures multiset(Reasons(a, path)) == multiset(Reasons(b, path))
  {
    hide Reasons;
    if a == [] {
      EmptyMultiset(b);
    } else {
      assert a[0] in multiset(a);
      var i := Occurrence(b, a[0]);
      TailMultiset(a);
      ReasonsPermute(a[1..], b[..i] + b[i + 1..], path);
      ReasonsAround(b, i, path);
      ReasonsAround(a, 0, path);
      assert a[..0] + a[1..] == a[1..];
    }
  }

  lemma ReasonsAround(rows: seq<Row>, i: nat, path: string)
    requires i < |rows|
    ensures multiset(Reasons(rows, path))
         == multiset(Reasons([rows[i]], path)) + multiset(Reasons(rows[..i] + rows[i + 1..], path))
  {
    hide Reasons;
    assert rows == rows[..i] + ([rows[i]] + rows[i + 1..]);
    ReasonsConcat(rows[..i], [rows[i]] + rows[i + 1..], path);
    ReasonsConcat([rows[i]], rows[i + 1..], path);
    ReasonsConcat(rows[..i], rows[i + 1..], path);
  }

  lemma FlagSetPermutes(a: seq<Row>, b: seq<Row>, path: string, f: Flag)
    requires multiset(a) == multiset(b)
    ensures FlagSet(a, path, f) ==> FlagSet(b, path, f)
  {
    hide RowSets;
    if FlagSet(a, path, f) {
      var i :| 0 <= i < |a| && a[i].path == path && RowSets(a[i], f);
      assert a[i] in multiset(a);
      assert a[i] in b;
      var j :| 0 <= j < |b| && b[j] == a[i];
      assert b[j].path == path && RowSets(b[j], f);
    }
  }

  /** The order of the output lines does not matter: the booleans and Clean stay, the reasons are permuted. */
  lemma OrderDoesNotMatter(a: seq<string>, b: seq<string>, path: string)
    requires multiset(a) == multiset(b)
    ensures var v, w := Verdict(Rows(a), path), Verdict(Rows(b), path);
            && w == v.(reasons := w.reasons)
            && multiset(v.reasons) == multiset(w.reasons)
            && Clean(v) == Clean(w)
  {
    hide Rows, FlagSet, Reasons;
    RowsPermute(a, b);
    var p, q := Rows(a), Rows(b);
    forall f ensures FlagSet(p, path, f) <==> FlagSet(q, path, f) {
      FlagSetPermutes(p, q, path, f);
      FlagSetPermutes(q, p, path, f);
    }
    ReasonsPermute(p, q, path);
    assert |multiset(Reasons(p, path))| == |Reasons(p, path)| && |multiset(Reasons(q, path))| == |Reasons(q, path)|;
  }

  /** The rows that give a reason, in order. */
  function Noteworthy(rows: seq<Row>, path: string): seq<Row> {
    if rows == [] then []
    else Noteworthy(rows[..|rows| - 1], path)
         + if rows[|rows| - 1].path != path || rows[|rows| - 1].config then [rows[|rows| - 1]] else []
  }

  /** The reason names the row's file, and says whose file it is and what it was marked. */
  predicate Describes(reason: Reason, r: Row, path: string) {
    && reason.path == r.path
    && (reason.ConfigOnQueried? <==> r.path == path)
    && (reason.OtherConfig? <==> r.path != path && r.config)
    && (reason.OtherFile? <==> r.path != path && !r.config)
    && (r.path != path ==> reason.flags == r.flags)
  }

  /** The reasons are one for each row about another file or with a c marker, in the order of the output. */
  lemma {:induction false} ReasonsInOrder(rows: seq<Row>, path: string)
    ensures |Reasons(rows, path)| == |Noteworthy(rows, path)|
    ensures forall k :: 0 <= k < |Reasons(rows, path)| ==>
              Describes(Reasons(rows, path)[k], Noteworthy(rows, path)[k], path)
  {
    if rows != [] {
      ReasonsInOrder(rows[..|rows| - 1], path);
      hide Describes;
      var last := rows[|rows| - 1];
      if last.path != path || last.config { OneReason(last, path); }
    }
  }

  lemma OneReason(r: Row, path: string)
    requires r.path != path || r.config
    ensures |ReasonsOf(r, path)| == 1 && Describes(ReasonsOf(r, path)[0], r, path)
  {
  }

  // ---------------------------------------------------------------- what Clean hides

  /** rpm had something to say on this line. */
  predicate NotBlank(line: string) {
    TrimSpace(TrimRightCR(line)) != ""
  }

  /** A row that changes nothing: about the queried path, no config marker, no surfaced position set. */
  ghost predicate Silent(r: Row, path: string) {
    r.path == path && !r.config && forall f :: !RowSets(r, f)
  }

  /** A line the fold overlooks: it is skipped, or its row is silent. */
  ghost predicate Overlooked(line: string, path: string) {
    RowOf(line).None? || Silent(RowOf(line).value, path)
  }

  lemma {:induction false} RowsAre(lines: seq<string>)
    ensures forall r :: r in Rows(lines) <==> exists i :: 0 <= i < |lines| && RowOf(lines[i]) == Some(r)
  {
    hide RowOf;
    if lines != [] {
      var front, last := lines[..|lines| - 1], lines[|lines| - 1];
      RowsAre(front);
      assert lines == front + [last];
      RowsSnoc(front, last);
      hide Rows;
      forall r | r in Rows(lines) ensures exists i :: 0 <= i < |lines| && RowOf(lines[i]) == Some(r) {
        if r in Rows(front) {
          var i :| 0 <= i < |front| && RowOf(front[i]) == Some(r);
          assert RowOf(lines[i]) == Some(r);
        } else {
          assert RowOf(lines[|lines| - 1]) == Some(r);
        }
      }
      forall i | 0 <= i < |lines| && RowOf(lines[i]).Some? ensures RowOf(lines[i]).value in Rows(lines) {
        if i < |front| { assert RowOf(front[i]) == RowOf(lines[i]); }
      }
    }
  }

  /**
   * Clean is documented as "matches the manifest in every observable way". On the raw output: it is
   * returned although rpm reported something exactly when rpm did write a line, and every line it
   * wrote is skipped as unparseable or is a row about the file that sets no surfaced position.
   */
  lemma CleanOverlooks(lines: seq<string>, path: string)
    ensures Clean(Verdict(Rows(lines), path))
       <==> forall i :: 0 <= i < |lines| && NotBlank(lines[i]) ==> Overlooked(lines[i], path)
    ensures Clean(Verdict(Rows(lines), path)) && (exists i :: 0 <= i < |lines| && NotBlank(lines[i]))
       <==> (exists i :: 0 <= i < |lines| && NotBlank(lines[i]))
            && forall i :: 0 <= i < |lines| && NotBlank(lines[i]) ==> Overlooked(lines[i], path)
  {
    CleanMeaning(lines, path);
    RowsAre(lines);
    hide Rows, SplitLine, RowSets, Clean, Verdict, TrimSpace, TrimRightCR;
    forall i | 0 <= i < |lines| && !NotBlank(lines[i]) ensures RowOf(lines[i]).None? {}
    var rows := Rows(lines);
    if forall i :: 0 <= i < |lines| && NotBlank(lines[i]) ==> Overlooked(lines[i], path) {
      forall k | 0 <= k < |rows| ensures Silent(rows[k], path) {
        assert rows[k] in rows;
      }
    }
    if forall k :: 0 <= k < |rows| ==> Silent(rows[k], path) {
      forall i | 0 <= i < |lines| && RowOf(lines[i]).Some? ensures Silent(RowOf(lines[i]).value, path) {
        assert RowOf(lines[i]).value in rows;
      }
    }
  }

  lemma OneLine(line: string, path: string)
    requires Overlooked(line, path)
    ensures Clean(Verdict(Rows([line]), path))
  {
    hide RowOf, RowSets, Rows, Clean, Verdict;
    RowsOfOne(line);
    CleanMeaning([line], path);
  }

  lemma RowsOfOne(line: string)
    ensures Rows([line]) == match RowOf(line) case None => [] case Some(r) => [r]
  {
    hide RowOf, Rows;
    RowsOfNothing();
    RowsSnoc([], line);
    assert [line] == [] + [line];
  }

  /** rpm's "missing" lines have no nine-character flag column, so a missing file is reported clean. */
  lemma MissingFileIsClean(path: string)
    requires IsWord(path)
    ensures NotBlank("missing   " + path) && Clean(Verdict(Rows(["missing   " + path]), path))
  {
    hide Fields, TrimSpace, Rows, Clean, Verdict;
    var line := "missing   " + path;
    assert TrimRightCR(line) == line;
    FieldsOfMissing(path);
    TrimSpaceEmpty(line);
    assert !IsSpace(line[0]);
    OneLine(line, path);
  }

  lemma FieldsOfMissing(path: string)
    requires IsWord(path)
    ensures Fields("missing   " + path) == ["missing", path]
  {
    FieldsOfColumns("missing", "   ", path);
    assert "missing   " + path == "missing" + "   " + path;
  }

  lemma FieldsOfColumns(flags: string, gap: string, path: string)
    requires IsWord(flags) && gap != "" && AllSpace(gap) && IsWord(path)
    ensures Fields(flags + gap + path) == [flags, path]
  {
    hide Fields;
    WordThen(flags, gap, path);
    FieldsOfWord(path);
  }

  /**
   * A deviation rpm marks outside the six surfaced positions (D for the device, L for the link, P
   * for the capabilities, or any other letter) is parsed, is about the queried path, and is clean.
   */
  lemma UnsurfacedFlagIsClean(flags: string, gap: string, path: string)
    requires IsWord(flags) && |flags| == FLAG_LENGTH && gap != "" && AllSpace(gap) && IsWord(path)
    requires forall f :: !RowSets(Row(flags, false, path), f)
    ensures NotBlank(flags + gap + path)
    ensures RowOf(flags + gap + path) == Some(Row(flags, false, path))
    ensures Clean(Verdict(Rows([flags + gap + path]), path))
  {
    hide Fields, TrimSpace, Rows, Clean, Verdict, RowSets;
    var line := flags + gap + path;
    assert line[|line| - 1] == path[|path| - 1] && !IsSpace(path[|path| - 1]);
    assert TrimRightCR(line) == line;
    FieldsOfColumns(flags, gap, path);
    TrimSpaceEmpty(line);
    assert line[0] == flags[0] && !IsSpace(flags[0]);
    OneLine(line, path);
  }

  /** A column that marks the device, the link or the capabilities alone sets no surfaced position. */
  lemma UnsurfacedColumn(flags: string, i: nat, path: string)
    requires |flags| == FLAG_LENGTH && (i == 3 || i == 4 || i == 8) && !IsSpace(flags[i])
    requires forall j :: 0 <= j < FLAG_LENGTH && j != i ==> flags[j] == '.'
    ensures IsWord(flags) && forall f :: !RowSets(Row(flags, false, path), f)
  {
  }

  lemma CapabilitiesAreClean(path: string)
    requires IsWord(path)
    ensures Clean(Verdict(Rows(["........P" + "    " + path]), path))
  {
    hide Rows, Clean, Verdict, RowOf, RowSets, IsWord;
    UnsurfacedColumn("........P", 8, path);
    UnsurfacedFlagIsClean("........P", "    ", path);
  }
}
