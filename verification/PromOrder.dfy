/**
 * The check_state section as a function of the report: which reports have one text, however the sort
 * that is not stable leaves results that share a check id.
 */
module PromOrder {
  import opened Sequences
  import opened Sorting
  import opened Text
  import opened Report
  import opened Prom

  /** The part of a result that the section shows: states with no row of their own look alike. */
  function View(r: Result): Result {
    Result(r.checkId, "", r.severity, if r.state.Unrecognised? then Unrecognised("") else r.state, "", "")
  }

  function Views(rs: seq<Result>): (r: seq<Result>)
    ensures |r| == |rs|
  {
    seq(|rs|, i requires 0 <= i < |rs| => View(rs[i]))
  }

  predicate SameRows(x: Result, y: Result) {
    x.severity == y.severity && (x.state == y.state || (x.state.Unrecognised? && y.state.Unrecognised?))
  }

  /** Results that share a check id agree on severity and state. */
  predicate Agreeing(rs: seq<Result>) {
    forall x, y :: x in rs && y in rs && x.checkId == y.checkId ==> SameRows(x, y)
  }

  // ---------------------------------------------------------------- rows and views

  lemma {:induction false} RowsOfViews(rs: seq<Result>)
    ensures SeriesOf(Views(rs)) == SeriesOf(rs)
  {
    if rs != [] {
      assert Views(rs)[1..] == Views(rs[1..]);
      RowsOfViews(rs[1..]);
      RowsOfView(rs[0]);
      hide SeriesFor, View;
    }
  }

  lemma RowsOfView(r: Result)
    ensures forall l :: SeriesFor(View(r), l) == SeriesFor(r, l)
  {
  }

  lemma RowsTellViews(x: Result, y: Result)
    requires forall l :: SeriesFor(x, l) == SeriesFor(y, l)
    ensures View(x) == View(y)
  {
    assert SeriesFor(x, LPass) == SeriesFor(y, LPass) && SeriesFor(x, LFail) == SeriesFor(y, LFail);
    assert SeriesFor(x, LSkip) == SeriesFor(y, LSkip) && SeriesFor(x, LError) == SeriesFor(y, LError);
  }

  lemma FrontRows(rs: seq<Result>)
    requires rs != []
    ensures |SeriesOf(rs)| == 4 + |SeriesOf(rs[1..])| && SeriesOf(rs)[4..] == SeriesOf(rs[1..])
    ensures SeriesOf(rs)[0] == SeriesFor(rs[0], LPass) && SeriesOf(rs)[1] == SeriesFor(rs[0], LFail)
    ensures SeriesOf(rs)[2] == SeriesFor(rs[0], LSkip) && SeriesOf(rs)[3] == SeriesFor(rs[0], LError)
  {
    hide SeriesFor;
  }

  lemma {:induction false} SeriesTellViews(a: seq<Result>, b: seq<Result>)
    requires SeriesOf(a) == SeriesOf(b)
    ensures Views(a) == Views(b)
  {
    hide SeriesFor, View, SeriesOf;
    if a != [] {
      FrontRows(a);
      FrontRows(b);
      SeriesTellViews(a[1..], b[1..]);
      forall l ensures SeriesFor(a[0], l) == SeriesFor(b[0], l) {
        match l case LPass => case LFail => case LSkip => case LError =>
      }
      RowsTellViews(a[0], b[0]);
      assert Views(a) == [View(a[0])] + Views(a[1..]) && Views(b) == [View(b[0])] + Views(b[1..]);
    }
  }

  /** Two sections are the same text exactly when they show the same views in the same order. */
  lemma SectionTellsViews(a: seq<Result>, b: seq<Result>)
    ensures SectionText(a) == SectionText(b) <==> Views(a) == Views(b)
  {
    hide SectionText, SeriesOf, ReadSection, Views;
    SectionReadsBack(a, "");
    SectionReadsBack(b, "");
    assert SectionText(a) + "" == SectionText(a) && SectionText(b) + "" == SectionText(b);
    if SectionText(a) == SectionText(b) {
      SeriesTellViews(a, b);
    } else if Views(a) == Views(b) {
      RowsOfViews(a);
      RowsOfViews(b);
      SameRowsSameText(a, b);
    }
  }

  lemma SameRowsSameText(a: seq<Result>, b: seq<Result>)
    requires SeriesOf(a) == SeriesOf(b)
    ensures SectionText(a) == SectionText(b)
  {
    hide SeriesOf, Rows, HelpLine, TypeLine;
  }

  // ---------------------------------------------------------------- sorted copies

  lemma {:induction false} ViewsMultiset(a: seq<Result>, b: seq<Result>)
    requires multiset(a) == multiset(b)
    ensures multiset(Views(a)) == multiset(Views(b))
  {
    hide View;
    if a == [] {
      EmptyMultiset(b);
    } else {
      assert a[0] in multiset(a);
      var i := Occurrence(b, a[0]);
      TailMultiset(a);
      ViewsMultiset(a[1..], b[..i] + b[i + 1..]);
      assert Views(a) == [View(a[0])] + Views(a[1..]);
      assert Views(b[..i] + b[i + 1..]) == Views(b[..i]) + Views(b[i + 1..]);
      assert Views(b) == Views(b[..i]) + [View(b[i])] + Views(b[i + 1..]);
    }
  }

  lemma ViewsSorted(results: seq<Result>, order: seq<Result>)
    requires SortedCopy(results, order)
    ensures SortedBy((r: Result) => r.checkId, Views(order)) && multiset(Views(order)) == multiset(Views(results))
  {
    hide AtMost;
    ViewsMultiset(order, results);
  }

  lemma OneOrder(results: seq<Result>, a: seq<Result>, b: seq<Result>)
    requires SortedCopy(results, a) && SortedCopy(results, b) && Agreeing(results)
    ensures Views(a) == Views(b)
  {
    hide AtMost;
    ViewsSorted(results, a);
    ViewsSorted(results, b);
    AgreeingViews(results, a);
    SortedUnique((r: Result) => r.checkId, Views(a), Views(b));
  }

  lemma AgreeingViews(results: seq<Result>, a: seq<Result>)
    requires multiset(a) == multiset(results) && Agreeing(results)
    ensures forall x, y :: x in Views(a) && y in Views(a) && x.checkId == y.checkId ==> x == y
  {
    forall x, y | x in Views(a) && y in Views(a) && x.checkId == y.checkId ensures x == y {
      var i :| 0 <= i < |a| && Views(a)[i] == x;
      var j :| 0 <= j < |a| && Views(a)[j] == y;
      assert a[i] in multiset(a) && a[j] in multiset(a);
      assert SameRows(a[i], a[j]);
    }
  }

  /** The two results at i and j exchanged. */
  function Exchanged(rs: seq<Result>, i: nat, j: nat): seq<Result>
    requires i < |rs| && j < |rs|
  {
    rs[i := rs[j]][j := rs[i]]
  }

  lemma ExchangedSorted(results: seq<Result>, order: seq<Result>, i: nat, j: nat)
    requires SortedCopy(results, order) && i < |order| && j < |order| && order[i].checkId == order[j].checkId
    ensures SortedCopy(results, Exchanged(order, i, j))
  {
    hide AtMost;
    var o := Exchanged(order, i, j);
    assert forall k :: 0 <= k < |o| ==> o[k].checkId == order[k].checkId;
    assert multiset(o) == multiset(order);
  }

  /** Every sorted copy of the results gives the text of this one. */
  ghost predicate OneText(results: seq<Result>, order: seq<Result>) {
    forall o :: SortedCopy(results, o) ==> SectionText(o) == SectionText(order)
  }

  /**
   * The same report has one text, whatever the sort does with equal check ids, exactly when results that
   * share a check id agree on severity and state.
   */
  lemma SectionIsDetermined(results: seq<Result>, order: seq<Result>)
    requires SortedCopy(results, order)
    ensures OneText(results, order) <==> Agreeing(results)
  {
    hide SortedCopy, SectionText, Views;
    if Agreeing(results) {
      forall o | SortedCopy(results, o) ensures SectionText(o) == SectionText(order) {
        OneOrder(results, o, order);
        SectionTellsViews(o, order);
      }
    } else {
      DisagreementShows(results, order);
    }
  }

  lemma DisagreementShows(results: seq<Result>, order: seq<Result>)
    requires SortedCopy(results, order) && !Agreeing(results)
    ensures !OneText(results, order)
  {
    hide SortedBy, SectionText;
    var x, y :| x in results && y in results && x.checkId == y.checkId && !SameRows(x, y);
    assert x in multiset(results) && y in multiset(results);
    assert x in multiset(order) && y in multiset(order);
    var i :| 0 <= i < |order| && order[i] == x;
    var j :| 0 <= j < |order| && order[j] == y;
    var o := Exchanged(order, i, j);
    ExchangedSorted(results, order, i, j);
    SectionTellsViews(o, order);
    assert Views(o)[i] == View(y) && Views(order)[i] == View(x);
  }

  /** One check id, a pass and a fail: both orders are sorted, and their texts differ. */
  lemma SharedIdHasTwoTexts(id: string, p: Result, f: Result)
    requires p.checkId == id && f.checkId == id && p.state == Pass && f.state == Fail
    ensures SortedCopy([p, f], [p, f]) && SortedCopy([p, f], [f, p]) && SectionText([p, f]) != SectionText([f, p])
  {
    hide SectionText, Less;
    LessIrreflexive(id);
    assert multiset([f, p]) == multiset([p, f]);
    SectionTellsViews([p, f], [f, p]);
    assert Views([p, f])[0] == View(p) && Views([f, p])[0] == View(f);
  }
}
