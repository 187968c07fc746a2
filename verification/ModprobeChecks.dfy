/** The two modprobe checks whose verdict rests on the parser: dependency_chain and conf_correct. */
module ModprobeChecks {
  import opened Text
  import opened Conf
  import opened ConfDir
  import Report

  const REQUIRED_TARGET := "/bin/false"

  datatype Evidence = Count(n: nat) | Str(s: string) | Where(place: Place) | Flag(b: bool)

  datatype CheckResult = CheckResult(state: Report.State, evidence: map<string, Evidence>)

  // os.ReadDir: an error, or the entries in whatever order.
  datatype Listing = Unreadable(missing: bool) | Entries(entries: seq<Entry>)

  predicate SomeMissing(errs: seq<ScanError>) {
    exists i :: 0 <= i < |errs| && !errs[i].BadFile? && errs[i].missing
  }

  method AnyMissing(errs: seq<ScanError>) returns (yes: bool)
    ensures yes == SomeMissing(errs)
  {
    for i := 0 to |errs|
      invariant forall j :: 0 <= j < i ==> errs[j].BadFile? || !errs[j].missing
    {
      if !errs[i].BadFile? && errs[i].missing {
        return true;
      }
    }
    return false;
  }

  // ---------------------------------------------------------------- dependency_chain

  /** The verdict as a function of the scan. */
  function ChainState(scan: Scan, m: string): Report.State {
    if scan.errs != [] then (if SomeMissing(scan.errs) then Report.Fail else Report.Error)
    else if LastInstall(scan.directives, m).Some? && Target(LastInstall(scan.directives, m)) == REQUIRED_TARGET
    then Report.Pass
    else Report.Fail
  }

  /** The directory was read and scanned without an error. */
  predicate Resolved(listing: Listing, order: seq<Entry>) {
    listing.Entries? && ScanAll(order).errs == []
  }

  method RunDependencyChain(listing: Listing, m: string) returns (res: CheckResult, ghost order: seq<Entry>)
    ensures listing.Unreadable? ==> res.state == if listing.missing then Report.Fail else Report.Error
    ensures listing.Entries? ==> InOrder(listing.entries, order) && res.state == ChainState(ScanAll(order), m)
    ensures "directive_count" in res.evidence
    ensures res.evidence["directive_count"] == Count(if listing.Entries? then |ScanAll(order).directives| else 0)
    ensures Resolved(listing, order) <==> "last_install_target" in res.evidence
    ensures Resolved(listing, order) ==> var last := LastInstall(ScanAll(order).directives, m);
              && res.evidence["last_install_target"] == Str(Target(last))
              && "last_install_source" in res.evidence && res.evidence["last_install_source"] == Where(PlaceOf(last))
    ensures "override_target" in res.evidence <==>
              Resolved(listing, order) && res.state.Fail? && LastInstall(ScanAll(order).directives, m).Some?
    ensures "override_target" in res.evidence ==>
              && res.evidence["override_target"] == res.evidence["last_install_target"]
              && "override_source" in res.evidence
              && res.evidence["override_source"] == res.evidence["last_install_source"]
  {
    order := [];
    res := CheckResult(Report.Unrecognised(""), map[]);
    match listing {
      case Unreadable(missing) =>
        res := res.(evidence := res.evidence["directive_count" := Count(0)]);
        if missing {
          res := res.(state := Report.Fail);
        } else {
          res := res.(state := Report.Error);
        }
        return;
      case Entries(entries) =>
        var directives, errs;
        directives, errs, order := ParseConfDir(entries);
        hide ScanAll, InOrder, LastInstall;
        res := res.(evidence := res.evidence["directive_count" := Count(|directives|)]);
        if |errs| > 0 {
          var missing := AnyMissing(errs);
          if missing {
            res := res.(state := Report.Fail);
          } else {
            res := res.(state := Report.Error);
          }
          return;
        }
        var lastTarget, lastSource, found := LastInstallDirective(directives, m);
        res := res.(evidence := res.evidence["last_install_target" := Str(lastTarget)]);
        res := res.(evidence := res.evidence["last_install_source" := Where(lastSource)]);
        if !found {
          res := res.(state := Report.Fail);
          return;
        }
        if lastTarget != REQUIRED_TARGET {
          res := res.(state := Report.Fail);
          res := res.(evidence := res.evidence["override_source" := Where(lastSource)]);
          res := res.(evidence := res.evidence["override_target" := Str(lastTarget)]);
          return;
        }
        res := res.(state := Report.Pass);
    }
  }

  predicate IsConfFile(e: Entry) {
    HasConfSuffix(e.name) && e.info.Opens?
  }

  lemma RequiredTargetIsWord()
    ensures IsWord(REQUIRED_TARGET)
  {
  }

  /**
   * End to end: with distinct names and every entry scanning without error, the check passes
   * exactly when the greatest-named file that installs m at all has, as its last such directive,
   * the single argument /bin/false; it fails otherwise.
   */
  lemma ChainPasses(entries: seq<Entry>, order: seq<Entry>, m: string)
    requires InOrder(entries, order)
    requires forall x, y :: x in entries && y in entries && x.name == y.name ==> x == y
    requires forall e :: e in entries ==> ScanEntry(e).errs == []
    ensures ChainState(ScanAll(order), m).Pass? || ChainState(ScanAll(order), m).Fail?
    ensures ChainState(ScanAll(order), m).Pass?
       <==> exists f :: Decides(entries, m, f) && IsConfFile(f) && FileInstall(f, m).value.args == [REQUIRED_TARGET]
  {
    hide ScanEntry, LastInstall, ScanAll;
    NoErrors(entries, order);
    DecidingFile(entries, order, m);
    RequiredTargetIsWord();
    var ds := ScanAll(order).directives;
    forall d, w | d in ds && w in d.args ensures IsWord(w) {
      ScanArgsAreWords(order, d);
    }
    TargetIsWord(ds, m, REQUIRED_TARGET);
    forall f | FileInstall(f, m).Some? ensures IsConfFile(f) {
      OnlyConfFilesInstall(f, m);
    }
  }

  lemma OnlyConfFilesInstall(f: Entry, m: string)
    requires FileInstall(f, m).Some?
    ensures IsConfFile(f)
  {
    hide SpecParse;
  }

  /** A prefix of the scan is undisturbed by an error behind it: the errors come out in scan order. */
  lemma {:induction false} ErrorsKept(order: seq<Entry>, e: Entry, err: ScanError)
    requires e in order && err in ScanEntry(e).errs
    ensures err in ScanAll(order).errs
  {
    hide ScanEntry;
    var front, last := order[..|order| - 1], order[|order| - 1];
    if e != last {
      assert e in front;
      ErrorsKept(front, e, err);
    }
  }

  lemma {:induction false} ErrorsComeFromEntries(order: seq<Entry>, err: ScanError)
    requires err in ScanAll(order).errs
    ensures exists e :: e in order && err in ScanEntry(e).errs
  {
    hide ScanEntry;
    var front, last := order[..|order| - 1], order[|order| - 1];
    if err in ScanAll(front).errs {
      ErrorsComeFromEntries(front, err);
    } else {
      assert last in order && err in ScanEntry(last).errs;
    }
  }

  predicate Vanished(e: Entry) {
    HasConfSuffix(e.name) && (e.info == StatFails(true) || e.info == OpenFails(true))
  }

  /**
   * The comment over the error branch says only a missing directory is a Fail and any other error,
   * a broken symlink included, is an Error. The code asks errors.Is(err, fs.ErrNotExist) of the
   * joined errors: when the scan has errors it reports Fail exactly when some *.conf entry's target
   * does not exist, a dangling symlink for one.
   */
  lemma ScanErrorVerdict(entries: seq<Entry>, order: seq<Entry>, m: string)
    requires InOrder(entries, order)
    requires ScanAll(order).errs != []
    ensures ChainState(ScanAll(order), m).Fail? <==> exists e :: e in entries && Vanished(e)
    ensures !ChainState(ScanAll(order), m).Fail? ==> ChainState(ScanAll(order), m).Error?
  {
    hide ScanAll, SpecParse;
    var errs := ScanAll(order).errs;
    forall e ensures e in order <==> e in entries {
      assert e in multiset(order) <==> e in multiset(entries);
    }
    if SomeMissing(errs) {
      var i :| 0 <= i < |errs| && !errs[i].BadFile? && errs[i].missing;
      ErrorsComeFromEntries(order, errs[i]);
      var e :| e in order && errs[i] in ScanEntry(e).errs;
      assert Vanished(e);
    }
    if e :| e in entries && Vanished(e) {
      var err := ScanEntry(e).errs[0];
      assert err in ScanEntry(e).errs;
      ErrorsKept(order, e, err);
      var i :| 0 <= i < |errs| && errs[i] == err;
      assert SomeMissing(errs);
    }
  }

  lemma DanglingSymlinkReportsFail(m: string)
    ensures ChainState(ScanAll([Entry("a.conf", StatFails(true))]), m).Fail?
  {
    var e := Entry("a.conf", StatFails(true));
    assert "a.conf"[|"a.conf"| - 5..] == ".conf";
    assert [e][..0] == [];
    assert ScanAll([e]).errs == [] + [CannotStat("a.conf", true)];
    assert ScanAll([e]).errs[0] == CannotStat("a.conf", true);
  }

  // ---------------------------------------------------------------- conf_correct

  // The outcome of opening the blocklist file.
  datatype ConfFile = Missing | Unopenable | Readable(source: string, lines: seq<string>)

  method RunConfCorrect(file: ConfFile, m: string) returns (res: CheckResult)
    ensures res.state == CorrectState(file, m)
    ensures "directive_count" in res.evidence
    ensures !file.Readable? ==> res.evidence["directive_count"] == Count(0)
    ensures file.Readable? ==> var parsed := SpecParse(ClassifyAll(file.lines), file.source, 0);
              && res.evidence["directive_count"] == Count(|parsed.directives|)
              && (parsed.err.None? ==>
                    && "install_target" in res.evidence && "blacklisted" in res.evidence
                    && res.evidence["install_target"] == Str(Target(LastInstall(parsed.directives, m)))
                    && res.evidence["blacklisted"] == Flag(IsBlacklistedSpec(parsed.directives, m)))
  {
    hide SpecParse, LastInstall, ClassifyAll, Target, IsBlacklistedSpec;
    res := CheckResult(Report.Unrecognised(""), map[]);
    match file {
      case Missing =>
        return CheckResult(Report.Fail, res.evidence["directive_count" := Count(0)]);
      case Unopenable =>
        return CheckResult(Report.Error, res.evidence["directive_count" := Count(0)]);
      case Readable(source, lines) =>
        var directives, err := ParseConfReader(lines, source);
        assert Parsed(directives, err) == SpecParse(ClassifyAll(lines), source, 0);
        res := res.(evidence := res.evidence["directive_count" := Count(|directives|)]);
        if err.Some? {
          return res.(state := Report.Error);
        }
        var target, hasInstall := InstallTarget(directives, m);
        var blacklisted := IsBlacklisted(directives, m);
        res := res.(evidence := res.evidence["install_target" := Str(target)]["blacklisted" := Flag(blacklisted)]);
        var missing: seq<string> := [];
        if !hasInstall || target != REQUIRED_TARGET {
          missing := missing + ["install " + m + " " + REQUIRED_TARGET];
        }
        if !blacklisted {
          missing := missing + ["blacklist " + m];
        }
        if |missing| > 0 {
          return res.(state := Report.Fail);
        }
        return res.(state := Report.Pass);
    }
  }

  function CorrectState(file: ConfFile, m: string): Report.State {
    match file
    case Missing => Report.Fail
    case Unopenable => Report.Error
    case Readable(source, lines) =>
      var parsed := SpecParse(ClassifyAll(lines), source, 0);
      if parsed.err.Some? then Report.Error
      else if LastInstall(parsed.directives, m).Some? && Target(LastInstall(parsed.directives, m)) == REQUIRED_TARGET
              && IsBlacklistedSpec(parsed.directives, m)
      then Report.Pass
      else Report.Fail
  }

  /** conf_correct passes exactly on a well-formed file whose last install is /bin/false alone and that blacklists m. */
  lemma CorrectPasses(source: string, lines: seq<string>, m: string)
    ensures var parsed := SpecParse(ClassifyAll(lines), source, 0);
            CorrectState(Readable(source, lines), m).Pass?
            <==> parsed.err.None?
                 && (exists i :: 0 <= i < |parsed.directives| && parsed.directives[i].args == [REQUIRED_TARGET]
                       && IsInstall(parsed.directives[i], m)
                       && forall j :: i < j < |parsed.directives| ==> !IsInstall(parsed.directives[j], m))
                 && IsBlacklistedSpec(parsed.directives, m)
  {
    hide SpecParse, LastInstall;
    var ds := SpecParse(ClassifyAll(lines), source, 0).directives;
    forall d, w | d in ds && w in d.args ensures IsWord(w) {
      ArgsAreWords(ClassifyAll(lines), source, 0, d);
    }
    RequiredTargetIsWord();
    TargetIsWord(ds, m, REQUIRED_TARGET);
    LastInstallMeaning(ds, m);
    LastIsUnique(ds, m);
  }

  /** The last install directive for m has these arguments. */
  predicate EndsOnInstall(ds: seq<ConfDirective>, m: string, args: seq<string>) {
    exists i :: 0 <= i < |ds| && ds[i].kind == "install" && ds[i].module_ == m && ds[i].args == args
                && forall j :: i < j < |ds| ==> !(ds[j].kind == "install" && ds[j].module_ == m)
  }

  predicate Blacklists(ds: seq<ConfDirective>, m: string) {
    exists i :: 0 <= i < |ds| && ds[i].kind == "blacklist" && ds[i].module_ == m
  }

  /** What is asked of the file: a last install of /bin/false alone, and a blacklist directive. */
  predicate Complies(ds: seq<ConfDirective>, m: string) {
    EndsOnInstall(ds, m, ["/bin/false"]) && Blacklists(ds, m)
  }

  /**
   * The verdict in all cases. Fail: the file is missing, or well-formed and lacks a directive. Error: it
   * cannot be opened or does not parse. Pass: it is well-formed and holds both.
   */
  lemma CorrectVerdict(file: ConfFile, m: string)
    ensures file.Missing? ==> CorrectState(file, m).Fail?
    ensures file.Unopenable? ==> CorrectState(file, m).Error?
    ensures file.Readable? ==>
      var parsed := SpecParse(ClassifyAll(file.lines), file.source, 0);
      && (CorrectState(file, m).Error? <==> parsed.err.Some?)
      && (CorrectState(file, m).Pass? <==> parsed.err.None? && Complies(parsed.directives, m))
      && (CorrectState(file, m).Fail? <==> parsed.err.None? && !Complies(parsed.directives, m))
  {
    hide SpecParse, LastInstall, Complies;
    if file.Readable? {
      CorrectPasses(file.source, file.lines, m);
      CompliesIs(SpecParse(ClassifyAll(file.lines), file.source, 0).directives, m);
    }
  }

  lemma CompliesIs(ds: seq<ConfDirective>, m: string)
    ensures Complies(ds, m)
       <==> (exists i :: 0 <= i < |ds| && ds[i].args == [REQUIRED_TARGET] && IsInstall(ds[i], m)
               && forall j :: i < j < |ds| ==> !IsInstall(ds[j], m))
            && IsBlacklistedSpec(ds, m)
  {
    assert forall i :: 0 <= i < |ds| ==> (IsInstall(ds[i], m) <==> ds[i].kind == "install" && ds[i].module_ == m);
  }

  lemma LastIsUnique(ds: seq<ConfDirective>, m: string)
    ensures forall i, k :: 0 <= i < |ds| && 0 <= k < |ds| && IsInstall(ds[i], m) && IsInstall(ds[k], m)
              && (forall j :: i < j < |ds| ==> !IsInstall(ds[j], m))
              && (forall j :: k < j < |ds| ==> !IsInstall(ds[j], m))
              ==> i == k
  {
  }

  /** The entry's file is the one conf_correct reads, and no file with a greater name installs m. */
  ghost predicate Undisputed(entries: seq<Entry>, e: Entry, m: string) {
    e in entries && forall g :: g in entries && Less(e.name, g.name) ==> FileInstall(g, m).None?
  }

  /**
   * The two checks agree: in any listing with distinct names that scans without error, a
   * conf_correct Pass of an undisputed file is a dependency_chain Pass of the whole directory.
   */
  lemma CorrectImpliesChain(entries: seq<Entry>, order: seq<Entry>, name: string, source: string, lines: seq<string>,
                            m: string)
    requires InOrder(entries, order)
    requires forall x, y :: x in entries && y in entries && x.name == y.name ==> x == y
    requires forall e :: e in entries ==> ScanEntry(e).errs == []
    requires HasConfSuffix(name) && Undisputed(entries, Entry(name, Opens(source, lines)), m)
    requires CorrectState(Readable(source, lines), m).Pass?
    ensures ChainState(ScanAll(order), m).Pass?
  {
    hide SpecParse, LastInstall, ScanAll, InOrder, Less;
    var e := Entry(name, Opens(source, lines));
    CorrectFileInstalls(name, source, lines, m);
    hide CorrectState, FileInstall, ChainState;
    forall g | g in entries && FileInstall(g, m).Some? && g != e ensures Less(g.name, e.name) {
      LessTotal(g.name, e.name);
    }
    assert Decides(entries, m, e);
    ChainPasses(entries, order, m);
  }

  lemma CorrectFileInstalls(name: string, source: string, lines: seq<string>, m: string)
    requires HasConfSuffix(name) && CorrectState(Readable(source, lines), m).Pass?
    ensures var e := Entry(name, Opens(source, lines));
            FileInstall(e, m).Some? && FileInstall(e, m).value.args == [REQUIRED_TARGET]
  {
    hide SpecParse, LastInstall;
    var ds := SpecParse(ClassifyAll(lines), source, 0).directives;
    forall d, w | d in ds && w in d.args ensures IsWord(w) {
      ArgsAreWords(ClassifyAll(lines), source, 0, d);
    }
    RequiredTargetIsWord();
    TargetIsWord(ds, m, REQUIRED_TARGET);
  }
}
