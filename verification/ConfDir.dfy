/** The scan of a modprobe.d directory and the "later wins" queries over its directives. */
module ConfDir {
  import opened Wrappers
  import opened Text
  import opened Sorting
  import opened Conf

  // ---------------------------------------------------------------- queries

  const INSTALL := "install"
  const BLACKLIST := "blacklist"

  predicate IsInstall(d: ConfDirective, m: string) {
    d.kind == INSTALL && d.module_ == m
  }

  /** The last install directive for m. */
  function LastInstall(ds: seq<ConfDirective>, m: string): Option<ConfDirective> {
    if ds == [] then None
    else if IsInstall(ds[|ds| - 1], m) then Some(ds[|ds| - 1])
    else LastInstall(ds[..|ds| - 1], m)
  }

  predicate IsBlacklistedSpec(ds: seq<ConfDirective>, m: string) {
    exists i :: 0 <= i < |ds| && ds[i].kind == BLACKLIST && ds[i].module_ == m
  }

  lemma {:induction false} LastInstallMeaning(ds: seq<ConfDirective>, m: string)
    ensures LastInstall(ds, m).None? <==> forall i :: 0 <= i < |ds| ==> !IsInstall(ds[i], m)
    ensures LastInstall(ds, m).Some? ==>
              exists i :: 0 <= i < |ds| && ds[i] == LastInstall(ds, m).value && IsInstall(ds[i], m)
                          && forall j :: i < j < |ds| ==> !IsInstall(ds[j], m)
  {
    hide IsInstall;
    if ds != [] {
      if IsInstall(ds[|ds| - 1], m) {
        var i := |ds| - 1;
        assert ds[i] == LastInstall(ds, m).value;
      } else {
        var front := ds[..|ds| - 1];
        LastInstallMeaning(front, m);
        assert LastInstall(ds, m) == LastInstall(front, m);
        if LastInstall(front, m).Some? {
          var i :| 0 <= i < |front| && front[i] == LastInstall(front, m).value && IsInstall(front[i], m)
                   && forall j :: i < j < |front| ==> !IsInstall(front[j], m);
          assert ds[i] == front[i];
        } else {
          assert forall i :: 0 <= i < |front| ==> ds[i] == front[i];
        }
      }
    }
  }

  /** Later wins, over concatenation: the files behind decide unless they are silent. */
  lemma {:induction false} LastInstallConcat(a: seq<ConfDirective>, b: seq<ConfDirective>, m: string)
    ensures LastInstall(a + b, m) == if LastInstall(b, m).Some? then LastInstall(b, m) else LastInstall(a, m)
  {
    if b == [] {
      assert a + b == a;
    } else {
      assert (a + b)[..|a + b| - 1] == a + b[..|b| - 1];
      LastInstallConcat(a, b[..|b| - 1], m);
    }
  }

  lemma BlacklistMonotone(a: seq<ConfDirective>, b: seq<ConfDirective>, m: string)
    ensures IsBlacklistedSpec(a + b, m) <==> IsBlacklistedSpec(a, m) || IsBlacklistedSpec(b, m)
  {
    forall i | 0 <= i < |a + b| ensures (a + b)[i] == if i < |a| then a[i] else b[i - |a|] {}
    if IsBlacklistedSpec(b, m) {
      var i :| 0 <= i < |b| && b[i].kind == BLACKLIST && b[i].module_ == m;
      assert (a + b)[|a| + i] == b[i];
    }
    if IsBlacklistedSpec(a, m) {
      var i :| 0 <= i < |a| && a[i].kind == BLACKLIST && a[i].module_ == m;
      assert (a + b)[i] == a[i];
    }
  }

  function Target(last: Option<ConfDirective>): string {
    if last.Some? then Join(last.value.args) else ""
  }

  method InstallTarget(directives: seq<ConfDirective>, m: string) returns (target: string, found: bool)
    ensures found == LastInstall(directives, m).Some? && target == Target(LastInstall(directives, m))
  {
    target, found := "", false;
    for i := 0 to |directives|
      invariant found == LastInstall(directives[..i], m).Some? && target == Target(LastInstall(directives[..i], m))
    {
      var d := directives[i];
      assert directives[..i + 1][..i] == directives[..i];
      if d.kind != INSTALL || d.module_ != m {
        continue;
      }
      target := Join(d.args);
      found := true;
    }
    assert directives[..|directives|] == directives;
  }

  // The program formats the place as "<source>:<line>".
  datatype Place = NoPlace | At(source: string, lineNum: nat)

  function PlaceOf(last: Option<ConfDirective>): Place {
    if last.Some? then At(last.value.source, last.value.lineNum) else NoPlace
  }

  method LastInstallDirective(directives: seq<ConfDirective>, m: string)
    returns (target: string, place: Place, found: bool)
    ensures found == LastInstall(directives, m).Some? && target == Target(LastInstall(directives, m))
    ensures place == PlaceOf(LastInstall(directives, m))
    ensures found ==> place == At(LastInstall(directives, m).value.source, LastInstall(directives, m).value.lineNum)
    ensures !found ==> place == NoPlace
  {
    target, place, found := "", NoPlace, false;
    for i := 0 to |directives|
      invariant found == LastInstall(directives[..i], m).Some? && target == Target(LastInstall(directives[..i], m))
      invariant place == PlaceOf(LastInstall(directives[..i], m))
    {
      var d := directives[i];
      assert directives[..i + 1][..i] == directives[..i];
      if d.kind != INSTALL || d.module_ != m {
        continue;
      }
      target := Join(d.args);
      place := At(d.source, d.lineNum);
      found := true;
    }
    assert directives[..|directives|] == directives;
  }

  method IsBlacklisted(directives: seq<ConfDirective>, m: string) returns (yes: bool)
    ensures yes == IsBlacklistedSpec(directives, m)
  {
    for i := 0 to |directives|
      invariant forall j :: 0 <= j < i ==> !(directives[j].kind == BLACKLIST && directives[j].module_ == m)
    {
      if directives[i].kind == BLACKLIST && directives[i].module_ == m {
        return true;
      }
    }
    return false;
  }

  // ---------------------------------------------------------------- the directory

  // What the file system says about an entry; missing is errors.Is(err, fs.ErrNotExist). A dangling
  // symlink is StatFails(true).
  datatype EntryInfo =
    | StatFails(missing: bool)
    | NotRegular
    | OpenFails(missing: bool)
    | Opens(source: string, lines: seq<string>)

  datatype Entry = Entry(name: string, info: EntryInfo)

  datatype ScanError =
    | CannotStat(name: string, missing: bool)
    | CannotOpen(name: string, missing: bool)
    | BadFile(cause: ParseError)

  datatype Scan = Scan(directives: seq<ConfDirective>, errs: seq<ScanError>)

  predicate HasConfSuffix(name: string) {
    |name| >= 5 && name[|name| - 5..] == ".conf"
  }

  /** The scan looks at the names that end in .conf, and no others. */
  lemma ConfNames(name: string)
    ensures HasConfSuffix(name) <==> exists stem :: name == stem + ".conf"
  {
    if HasConfSuffix(name) {
      assert name == name[..|name| - 5] + ".conf";
    }
    if stem :| name == stem + ".conf" {
      assert name[|name| - 5..] == ".conf";
    }
  }

  /** What one directory entry adds to the scan. */
  function ScanEntry(e: Entry): Scan {
    if !HasConfSuffix(e.name) then Scan([], [])
    else match e.info
      case StatFails(missing) => Scan([], [CannotStat(e.name, missing)])
      case NotRegular => Scan([], [])
      case OpenFails(missing) => Scan([], [CannotOpen(e.name, missing)])
      case Opens(source, lines) =>
        var parsed := SpecParse(ClassifyAll(lines), source, 0);
        Scan(parsed.directives, if parsed.err.Some? then [BadFile(parsed.err.value)] else [])
  }

  function ScanAll(entries: seq<Entry>): Scan {
    if entries == [] then Scan([], [])
    else
      var front := ScanAll(entries[..|entries| - 1]);
      var last := ScanEntry(entries[|entries| - 1]);
      Scan(front.directives + last.directives, front.errs + last.errs)
  }

  /** The entries in the order the scan visits them. */
  ghost predicate InOrder(entries: seq<Entry>, order: seq<Entry>) {
    SortedBy((e: Entry) => e.name, order) && multiset(order) == multiset(entries)
  }

  lemma {:induction false} NoErrorsInOrder(order: seq<Entry>)
    ensures ScanAll(order).errs == [] <==> forall e :: e in order ==> ScanEntry(e).errs == []
  {
    hide ScanEntry;
    if order != [] {
      var front, last := order[..|order| - 1], order[|order| - 1];
      NoErrorsInOrder(front);
      assert order == front + [last];
    }
  }

  /** The scan reports an error exactly when some entry does. */
  lemma NoErrors(entries: seq<Entry>, order: seq<Entry>)
    requires InOrder(entries, order)
    ensures ScanAll(order).errs == [] <==> forall e :: e in entries ==> ScanEntry(e).errs == []
  {
    hide ScanEntry, ScanAll;
    NoErrorsInOrder(order);
    SameEntries(entries, order);
  }

  lemma SameEntries(entries: seq<Entry>, order: seq<Entry>)
    requires InOrder(entries, order)
    ensures forall e :: e in order <==> e in entries
  {
    forall e ensures e in order <==> e in entries {
      assert e in multiset(order) <==> e in multiset(entries);
    }
  }

  /** ParseConfDir over a directory listing in any order. */
  method ParseConfDir(entries: seq<Entry>)
    returns (directives: seq<ConfDirective>, errs: seq<ScanError>, ghost order: seq<Entry>)
    ensures InOrder(entries, order)
    ensures Scan(directives, errs) == ScanAll(order)
    ensures errs == [] <==> forall e :: e in entries ==> ScanEntry(e).errs == []
  {
    hide SortedBy, SpecParse;
    var sorted := new Entry[|entries|](i requires 0 <= i < |entries| => entries[i]);
    assert sorted[..] == entries;
    SortInPlace((e: Entry) => e.name, sorted);
    order := sorted[..];
    directives, errs := [], [];
    for i := 0 to sorted.Length
      invariant sorted[..] == order
      invariant Scan(directives, errs) == ScanAll(order[..i])
    {
      var entry := sorted[i];
      assert entry == order[i];
      assert order[..i + 1][..i] == order[..i];
      if !HasConfSuffix(entry.name) {
        continue;
      }
      match entry.info {
        case StatFails(missing) =>
          errs := errs + [CannotStat(entry.name, missing)];
        case NotRegular =>
        case OpenFails(missing) =>
          errs := errs + [CannotOpen(entry.name, missing)];
        case Opens(source, lines) =>
          var fileDirectives, parseErr := ParseConfReader(lines, source);
          assert Parsed(fileDirectives, parseErr) == SpecParse(ClassifyAll(lines), source, 0);
          directives := directives + fileDirectives;
          if parseErr.Some? {
            errs := errs + [BadFile(parseErr.value)];
          }
      }
    }
    assert order[..|order|] == order;
    NoErrors(entries, order);
  }

  /** With distinct names the result does not depend on the order the directory was listed in. */
  lemma ScanIndependentOfListing(a: seq<Entry>, b: seq<Entry>, orderA: seq<Entry>, orderB: seq<Entry>)
    requires multiset(a) == multiset(b) && InOrder(a, orderA) && InOrder(b, orderB)
    requires forall x, y :: x in a && y in a && x.name == y.name ==> x == y
    ensures ScanAll(orderA) == ScanAll(orderB)
  {
    forall x | x in orderA ensures x in a {
      assert x in multiset(orderA);
    }
    SortedUnique((e: Entry) => e.name, orderA, orderB);
  }

  lemma {:induction false} ErrorsOfEntries(order: seq<Entry>, err: ScanError)
    ensures err in ScanAll(order).errs <==> exists e :: e in order && err in ScanEntry(e).errs
  {
    hide ScanEntry;
    if order != [] {
      var front, last := order[..|order| - 1], order[|order| - 1];
      ErrorsOfEntries(front, err);
      assert order == front + [last];
    }
  }

  /** d is in the part of the entry's file that parses. */
  predicate Declares(e: Entry, d: ConfDirective) {
    HasConfSuffix(e.name) && e.info.Opens? && d in SpecParse(ClassifyAll(e.info.lines), e.info.source, 0).directives
  }

  lemma {:induction false} DirectivesInOrder(order: seq<Entry>, d: ConfDirective)
    ensures d in ScanAll(order).directives <==> exists e :: e in order && Declares(e, d)
  {
    hide SpecParse;
    if order != [] {
      var front, last := order[..|order| - 1], order[|order| - 1];
      DirectivesInOrder(front, d);
      assert order == front + [last];
      assert d in ScanEntry(last).directives <==> Declares(last, d);
      hide ScanEntry, Declares;
    }
  }

  /** The scan holds the directives of every file, up to its first error and in spite of errors elsewhere. */
  lemma ScanHolds(entries: seq<Entry>, order: seq<Entry>, d: ConfDirective)
    requires InOrder(entries, order)
    ensures d in ScanAll(order).directives <==> exists e :: e in entries && Declares(e, d)
  {
    hide ScanAll, Declares;
    SameEntries(entries, order);
    DirectivesInOrder(order, d);
  }

  /** A .conf entry whose file is not read. */
  predicate Skipped(e: Entry) {
    HasConfSuffix(e.name) && !e.info.Opens?
  }

  /** The scan reports that an entry of this name was skipped. */
  ghost predicate SkipRecorded(name: string, errs: seq<ScanError>) {
    exists err :: err in errs && !err.BadFile? && err.name == name
  }

  /** A skipped entry is recorded in the scan's error exactly when it is not one that is no regular file. */
  lemma SkipIsRecorded(entries: seq<Entry>, order: seq<Entry>, e: Entry)
    requires InOrder(entries, order) && e in entries && Skipped(e)
    requires forall x, y :: x in entries && y in entries && x.name == y.name ==> x == y
    ensures SkipRecorded(e.name, ScanAll(order).errs) <==> !e.info.NotRegular?
  {
    hide ScanAll, ScanEntry, HasConfSuffix;
    SameEntries(entries, order);
    hide InOrder;
    var errs := ScanAll(order).errs;
    if SkipRecorded(e.name, errs) {
      var err :| err in errs && !err.BadFile? && err.name == e.name;
      ErrorsOfEntries(order, err);
      var x :| x in order && err in ScanEntry(x).errs;
      SkipError(x, err);
    }
    if !e.info.NotRegular? {
      var err := if e.info.StatFails? then CannotStat(e.name, e.info.missing)
                 else CannotOpen(e.name, e.info.missing);
      SkipError(e, err);
      ErrorsOfEntries(order, err);
    }
  }

  lemma SkipError(e: Entry, err: ScanError)
    requires !err.BadFile?
    ensures err in ScanEntry(e).errs
       <==> Skipped(e) && !e.info.NotRegular?
            && err == if e.info.StatFails? then CannotStat(e.name, e.info.missing)
                      else CannotOpen(e.name, e.info.missing)
  {
    hide HasConfSuffix;
  }

  /** A directory holding one .conf directory scans as an empty one, without an error. */
  lemma NotRegularIsSilent()
    ensures Skipped(Entry("a.conf", NotRegular)) && ScanAll([Entry("a.conf", NotRegular)]) == Scan([], [])
  {
    assert "a.conf"[1..] == ".conf";
    assert [Entry("a.conf", NotRegular)][..0] == [];
  }

  // ---------------------------------------------------------------- which file decides

  function FileInstall(e: Entry, m: string): Option<ConfDirective> {
    LastInstall(ScanEntry(e).directives, m)
  }

  /**
   * f is the greatest-named entry whose file holds an install directive for m.
   */
  ghost predicate Decides(entries: seq<Entry>, m: string, f: Entry) {
    && f in entries && FileInstall(f, m).Some?
    && forall e :: e in entries && FileInstall(e, m).Some? && e != f ==> Less(e.name, f.name)
  }

  lemma {:induction false} LastHolder(order: seq<Entry>, m: string)
    requires LastInstall(ScanAll(order).directives, m).Some?
    ensures exists k :: 0 <= k < |order| && FileInstall(order[k], m) == LastInstall(ScanAll(order).directives, m)
                        && forall j :: k < j < |order| ==> FileInstall(order[j], m).None?
  {
    hide ScanEntry, LastInstall;
    assert order != [] by { LastInstallNothing(m); }
    var front, last := order[..|order| - 1], order[|order| - 1];
    LastInstallConcat(ScanAll(front).directives, ScanEntry(last).directives, m);
    if FileInstall(last, m).Some? {
      var k := |order| - 1;
      assert FileInstall(order[k], m) == LastInstall(ScanAll(order).directives, m);
    } else {
      LastHolder(front, m);
      var k :| 0 <= k < |front| && FileInstall(front[k], m) == LastInstall(ScanAll(front).directives, m)
               && forall j :: k < j < |front| ==> FileInstall(front[j], m).None?;
      assert forall j :: 0 <= j < |front| ==> order[j] == front[j];
      assert FileInstall(order[k], m) == LastInstall(ScanAll(order).directives, m);
    }
  }

  lemma LastInstallNothing(m: string)
    ensures LastInstall([], m).None? && ScanAll([]).directives == []
  {
  }

  lemma {:induction false} NoHolder(order: seq<Entry>, m: string)
    requires LastInstall(ScanAll(order).directives, m).None?
    ensures forall k :: 0 <= k < |order| ==> FileInstall(order[k], m).None?
  {
    hide ScanEntry, LastInstall;
    if order != [] {
      var front, last := order[..|order| - 1], order[|order| - 1];
      LastInstallConcat(ScanAll(front).directives, ScanEntry(last).directives, m);
      NoHolder(front, m);
      assert forall j :: 0 <= j < |front| ==> order[j] == front[j];
    }
  }

  /**
   * The directive that decides for m is the last one in the greatest-named file holding any: in the
   * listing's own terms, whatever order it came in.
   */
  lemma DecidingFile(entries: seq<Entry>, order: seq<Entry>, m: string)
    requires InOrder(entries, order)
    requires forall x, y :: x in entries && y in entries && x.name == y.name ==> x == y
    ensures LastInstall(ScanAll(order).directives, m).None? <==> forall e :: e in entries ==> FileInstall(e, m).None?
    ensures forall f :: Decides(entries, m, f) ==> LastInstall(ScanAll(order).directives, m) == FileInstall(f, m)
    ensures LastInstall(ScanAll(order).directives, m).Some? ==> exists f :: Decides(entries, m, f)
  {
    hide ScanEntry, LastInstall, ScanAll, FileInstall, Less;
    forall e ensures e in order <==> e in entries {
      assert e in multiset(order) <==> e in multiset(entries);
    }
    if LastInstall(ScanAll(order).directives, m).None? {
      NoHolder(order, m);
    } else {
      LastHolder(order, m);
      var k :| 0 <= k < |order| && FileInstall(order[k], m) == LastInstall(ScanAll(order).directives, m)
               && forall j :: k < j < |order| ==> FileInstall(order[j], m).None?;
      var f := order[k];
      HolderDecides(entries, order, m, k);
      forall g | Decides(entries, m, g) ensures g == f {
        if g != f {
          assert Less(f.name, g.name) && Less(g.name, f.name);
          LessAsymmetric(f.name, g.name);
        }
      }
    }
  }

  /** The last holder in visiting order is the greatest-named one. */
  lemma HolderDecides(entries: seq<Entry>, order: seq<Entry>, m: string, k: nat)
    requires InOrder(entries, order) && k < |order| && FileInstall(order[k], m).Some?
    requires forall j :: k < j < |order| ==> FileInstall(order[j], m).None?
    requires forall x, y :: x in entries && y in entries && x.name == y.name ==> x == y
    ensures Decides(entries, m, order[k])
  {
    hide FileInstall, Less;
    var f := order[k];
    forall e ensures e in order <==> e in entries {
      assert e in multiset(order) <==> e in multiset(entries);
    }
    forall e | e in entries && FileInstall(e, m).Some? && e != f ensures Less(e.name, f.name) {
      var j :| 0 <= j < |order| && order[j] == e;
      assert AtMost(order[j].name, order[k].name);
      LessTotal(e.name, f.name);
    }
  }

  // ---------------------------------------------------------------- tokens

  lemma {:induction false} AllTokensAreWords(lines: seq<Line>)
    ensures forall w :: w in AllTokens(lines) ==> IsWord(w)
  {
    if lines != [] {
      FieldsAreWords(lines[0].Payload());
      AllTokensAreWords(lines[1..]);
    }
  }

  lemma {:induction false} ArgsAreWords(lines: seq<Line>, source: string, before: nat, d: ConfDirective)
    requires d in SpecParse(lines, source, before).directives
    ensures forall w :: w in d.args ==> IsWord(w)
    decreases |lines|
  {
    hide AllTokens, FirstPayload, FirstLast, SpecParse, IsWord;
    var t := FirstLast(lines);
    var block := if t < |lines| then lines[..t + 1] else lines;
    AllTokensAreWords(block);
    if t < |lines| {
      FirstBlock(lines, source, before);
    } else {
      OpenBlock(lines, source, before);
    }
    if d !in ParseBlock(block, source, before).directives {
      ArgsAreWords(lines[t + 1..], source, before + t + 1, d);
    }
  }

  /** The joined target equals one word exactly when the argument list is that word alone. */
  lemma TargetIsWord(ds: seq<ConfDirective>, m: string, word: string)
    requires forall d, w :: d in ds && w in d.args ==> IsWord(w)
    requires IsWord(word)
    ensures LastInstall(ds, m).Some? && Target(LastInstall(ds, m)) == word
       <==> LastInstall(ds, m).Some? && LastInstall(ds, m).value.args == [word]
  {
    LastInstallMeaning(ds, m);
    if LastInstall(ds, m).Some? {
      JoinInjective(LastInstall(ds, m).value.args, [word]);
    }
  }

  lemma {:induction false} ScanArgsAreWords(order: seq<Entry>, d: ConfDirective)
    requires d in ScanAll(order).directives
    ensures forall w :: w in d.args ==> IsWord(w)
  {
    hide SpecParse;
    if d in ScanAll(order[..|order| - 1]).directives {
      ScanArgsAreWords(order[..|order| - 1], d);
    } else {
      var e := order[|order| - 1];
      assert d in ScanEntry(e).directives;
      ArgsAreWords(ClassifyAll(e.info.lines), e.info.source, 0, d);
    }
  }
}
