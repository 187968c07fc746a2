/**
 * Which file an rpm -V line is about, as rpm means it and as the parser reads it: the parser splits on
 * spaces and knows one mark only.
 */
module RpmLines {
  import opened Wrappers
  import opened Text
  import opened Rpm

  // ---------------------------------------------------------------- which file a line is about

  /** An rpm -V line: flag column, a mark (c, d, g, l, r) or none, and the file it is about. */
  function Spelled(flags: string, gap: string, mark: Option<string>, gap2: string, file: string): string {
    flags + gap + (if mark.Some? then mark.value + gap2 + file else file)
  }

  predicate WellFormed(flags: string, gap: string, mark: Option<string>, gap2: string) {
    && IsWord(flags) && |flags| == FLAG_LENGTH && IsGap(gap)
    && (mark.Some? ==> IsWord(mark.value) && IsGap(gap2))
  }

  /** The words the parser sees behind the flag column. */
  function Behind(mark: Option<string>, file: string): seq<string> {
    (if mark.Some? then [mark.value] else []) + Fields(file)
  }

  lemma FieldsOfSpelled(flags: string, gap: string, mark: Option<string>, gap2: string, file: string)
    requires WellFormed(flags, gap, mark, gap2)
    ensures Fields(Spelled(flags, gap, mark, gap2, file)) == [flags] + Behind(mark, file)
  {
    hide Fields, IsWord, IsGap;
    if mark.Some? {
      WordThen(mark.value, gap2, file);
      WordThen(flags, gap, mark.value + gap2 + file);
    } else {
      WordThen(flags, gap, file);
    }
  }

  lemma {:induction false} FieldsTrimCR(s: string)
    ensures Fields(TrimRightCR(s)) == Fields(s)
  {
    hide Fields;
    if s != "" && s[|s| - 1] == '\r' {
      var front := s[..|s| - 1];
      FieldsTrimCR(front);
      FieldsTrailingSpaces(front, "\r");
      assert s == front + "\r";
    }
  }

  /** The fold looks at the fields of a line and nothing else. */
  lemma RowIsFields(line: string)
    ensures RowOf(line) == SplitFields(Fields(line))
  {
    hide Fields, TrimSpace, TrimRightCR;
    FieldsTrimCR(line);
    TrimSpaceEmpty(TrimRightCR(line));
    FieldsEmpty(TrimRightCR(line));
  }

  lemma RowOfSpelled(flags: string, gap: string, mark: Option<string>, gap2: string, file: string)
    requires WellFormed(flags, gap, mark, gap2)
    ensures RowOf(Spelled(flags, gap, mark, gap2, file)) == SplitFields([flags] + Behind(mark, file))
  {
    hide Fields, RowOf, Spelled, Behind, SplitFields;
    RowIsFields(Spelled(flags, gap, mark, gap2, file));
    FieldsOfSpelled(flags, gap, mark, gap2, file);
  }

  /**
   * The parser reads a line as what it says about its file exactly when the file's name is one word
   * and the mark is the only one the parser knows, or none (or happens to spell the name).
   */
  lemma RowIsExact(flags: string, gap: string, mark: Option<string>, gap2: string, file: string)
    requires WellFormed(flags, gap, mark, gap2)
    ensures RowOf(Spelled(flags, gap, mark, gap2, file)) == Some(Row(flags, mark == Some("c"), file))
       <==> IsWord(file) && (mark.None? || mark.value == "c" || mark.value == file)
  {
    hide Fields, RowOf, Spelled, IsWord;
    RowOfSpelled(flags, gap, mark, gap2, file);
    FieldsAreWords(file);
    if IsWord(file) {
      FieldsOfWord(file);
    }
    var words := [flags] + Behind(mark, file);
    assert words[0] == flags;
    if mark.Some? {
      assert words[1] == mark.value && (Fields(file) != [] ==> words[2] == Fields(file)[0]);
    } else {
      assert Fields(file) != [] ==> words[1] == Fields(file)[0];
      assert |Fields(file)| > 1 ==> words[2] == Fields(file)[1];
    }
  }

  predicate SameFlags(v: VerifyResult, w: VerifyResult) {
    w == v.(reasons := w.reasons)
  }

  /**
   * The promise for a line about another file: wherever it comes in the output, it changes no boolean
   * and the result is not clean.
   */
  ghost predicate RecordedOnly(line: string, path: string) {
    forall before: seq<string> ::
      && SameFlags(Verdict(Rows(before), path), Verdict(Rows(before + [line]), path))
      && !Clean(Verdict(Rows(before + [line]), path))
  }

  ghost predicate SetsSome(r: Row) {
    exists f :: RowSets(r, f)
  }

  /** Row by row: what breaks the promise is a row the parser takes for the queried path. */
  lemma RecordedRow(line: string, r: Row, path: string)
    requires RowOf(line) == Some(r)
    ensures RecordedOnly(line, path) <==> r.path != path || (r.config && !SetsSome(r))
  {
    hide RowOf, Rows, Verdict, FlagSet, RowSets, Clean, SameFlags;
    if r.path != path || (r.config && !SetsSome(r)) {
      forall before: seq<string>
        ensures SameFlags(Verdict(Rows(before), path), Verdict(Rows(before + [line]), path))
        ensures !Clean(Verdict(Rows(before + [line]), path))
      {
        RowsSnoc(before, line);
        HarmlessRow(Rows(before), r, path);
      }
    } else {
      RowsOfNothing();
      RowsSnoc([], line);
      assert [] + [line] == [line];
      HarmfulRow(r, path);
      assert !(SameFlags(Verdict(Rows([]), path), Verdict(Rows([] + [line]), path))
               && !Clean(Verdict(Rows([] + [line]), path)));
    }
  }

  lemma HarmlessRow(rows: seq<Row>, r: Row, path: string)
    requires r.path != path || (r.config && !SetsSome(r))
    ensures SameFlags(Verdict(rows, path), Verdict(rows + [r], path))
    ensures !Clean(Verdict(rows + [r], path))
  {
    VerdictSnoc(rows, r, path);
    hide Verdict, RowSets, FlagSet;
  }

  lemma HarmfulRow(r: Row, path: string)
    requires r.path == path && (!r.config || SetsSome(r))
    ensures Verdict([], path) == BLANK
    ensures SetsSome(r) ==> !SameFlags(Verdict([], path), Verdict([] + [r], path))
    ensures !SetsSome(r) ==> Clean(Verdict([] + [r], path))
  {
    NothingSet(path);
    assert Verdict([], path) == BLANK;
    VerdictSnoc([], r, path);
    hide Verdict, RowSets, FlagSet;
    if f :| RowSets(r, f) {
      match f case _ => {}
    }
  }

  predicate Absolute(p: string) {
    p != "" && p[0] == '/'
  }

  /**
   * Verify promises that lines on other files are recorded and never promoted into the booleans. For
   * absolute paths, and a mark that is not one, a line about another file keeps the promise exactly
   * unless the first word of its name is the queried path, and it is unmarked or marked c with a
   * surfaced position set.
   */
  lemma SiblingLine(flags: string, gap: string, mark: Option<string>, gap2: string, file: string, path: string)
    requires WellFormed(flags, gap, mark, gap2) && (mark.Some? ==> !Absolute(mark.value))
    requires Absolute(file) && Absolute(path) && file != path
    ensures Fields(file) != []
    ensures RecordedOnly(Spelled(flags, gap, mark, gap2, file), path)
       <==> !(Fields(file)[0] == path
              && (mark.None? || (mark.value == "c" && SetsSome(Row(flags, true, path)))))
  {
    hide Fields, RowOf, Spelled, RowSets, SetsSome, RecordedOnly, AllSpace, IsSpace;
    AbsoluteFields(file);
    RowOfSpelled(flags, gap, mark, gap2, file);
    var words := [flags] + Behind(mark, file);
    assert words[0] == flags;
    var first := Fields(file)[0];
    assert first != "c" by { assert "c"[0] == 'c'; }
    if mark.Some? {
      assert words[1] == mark.value && words[2] == first;
    } else {
      assert words[1] == first;
    }
    RecordedRow(Spelled(flags, gap, mark, gap2, file), SplitFields(words).value, path);
    if mark.None? {
      assert SplitFields(words) == Some(Row(flags, false, first));
    }
  }

  /** The first word of an absolute name begins with its slash. */
  lemma AbsoluteFields(file: string)
    requires Absolute(file)
    ensures Fields(file) != [] && Absolute(Fields(file)[0])
  {
  }

  /** A line on the queried path itself, marked otherwise than c: nothing it says reaches the booleans. */
  lemma OtherMarkIsLost(flags: string, gap: string, mark: string, gap2: string, path: string)
    requires WellFormed(flags, gap, Some(mark), gap2) && mark != "c" && mark != path && Fields(path) != []
    ensures RecordedOnly(Spelled(flags, gap, Some(mark), gap2, path), path)
  {
    hide Fields, RowOf, Spelled, RecordedOnly;
    RowOfSpelled(flags, gap, Some(mark), gap2, path);
    var words := [flags] + Behind(Some(mark), path);
    assert words[0] == flags && words[1] == mark;
    RecordedRow(Spelled(flags, gap, Some(mark), gap2, path), SplitFields(words).value, path);
  }

  // ---------------------------------------------------------------- names with a space

  lemma FirstOfTwo(a: string, b: string)
    requires IsWord(a) && IsWord(b)
    ensures Fields(a + " " + b) == [a, b]
  {
    hide Fields;
    WordThen(a, " ", b);
    FieldsOfWord(b);
  }

  /** A sibling whose name continues the queried path with a space: its flags reach the booleans. */
  lemma SiblingFlips(gap: string, path: string, more: string)
    requires IsGap(gap) && IsWord(path) && IsWord(more) && path != "c"
    ensures var v := Verdict(Rows(["S........" + gap + (path + " " + more)]), path);
            v.sizeChanged && v.reasons == []
  {
    hide Fields, Rows, Verdict, RowOf;
    var flags := "S........";
    var file := path + " " + more;
    SizeColumn(flags);
    MisreadLine(flags, gap, path, more);
    OneRow(flags + gap + file, Row(flags, false, path), path);
  }

  /** The same with a position the booleans do not surface: the result stays clean. */
  lemma SiblingStaysClean(gap: string, path: string, more: string)
    requires IsGap(gap) && IsWord(path) && IsWord(more) && path != "c"
    ensures Clean(Verdict(Rows(["........P" + gap + (path + " " + more)]), path))
  {
    hide Fields, Rows, Verdict, RowOf, RowSets, Clean, IsWord, IsGap;
    var flags := "........P";
    UnsurfacedColumn(flags, 8, path);
    MisreadLine(flags, gap, path, more);
    OneLine(flags + gap + (path + " " + more), path);
  }

  lemma SizeColumn(flags: string)
    requires flags == "S........"
    ensures IsWord(flags) && RowSets(Row(flags, false, ""), Size)
  {
  }

  lemma MisreadLine(flags: string, gap: string, path: string, more: string)
    requires IsWord(flags) && |flags| == FLAG_LENGTH && IsGap(gap) && IsWord(path) && IsWord(more) && path != "c"
    ensures RowOf(flags + gap + (path + " " + more)) == Some(Row(flags, false, path))
  {
    hide Fields, RowOf, IsWord, IsGap;
    var file := path + " " + more;
    FirstOfTwo(path, more);
    RowOfSpelled(flags, gap, None, "", file);
    assert [flags] + ([] + [path, more]) == [flags, path, more];
  }

  lemma OneRow(line: string, r: Row, path: string)
    requires RowOf(line) == Some(r) && r.path == path && !r.config
    ensures Verdict(Rows([line]), path).reasons == []
    ensures Verdict(Rows([line]), path).sizeChanged <==> RowSets(r, Size)
    ensures Verdict(Rows([line]), path).hashMismatch <==> RowSets(r, Hash)
  {
    hide RowOf, Rows, RowSets;
    RowsOfOne(line);
    assert Verdict([], path) == BLANK by { NothingSet(path); }
    VerdictSnoc([], r, path);
    assert [] + [r] == [r];
  }

  /** A changed hash on a file rpm marks as documentation: the mismatch is not seen. */
  lemma DocumentationHashIsLost(path: string)
    requires IsWord(path) && path != "d"
    ensures !Verdict(Rows([Spelled("..5......", "  ", Some("d"), " ", path)]), path).hashMismatch
  {
    hide Fields, Rows, Verdict, RowOf, Clean, Spelled, RecordedOnly;
    assert IsWord("..5......") && IsWord("d");
    FieldsOfWord(path);
    OtherMarkIsLost("..5......", "  ", "d", " ", path);
    NothingRecorded(Spelled("..5......", "  ", Some("d"), " ", path), path);
  }

  lemma NothingRecorded(line: string, path: string)
    requires RecordedOnly(line, path)
    ensures !Verdict(Rows([line]), path).hashMismatch
  {
    assert SameFlags(Verdict(Rows([]), path), Verdict(Rows([] + [line]), path));
    hide Rows, FlagSet, RowSets;
    RowsOfNothing();
    NothingSet(path);
    assert [] + [line] == [line];
  }
}
