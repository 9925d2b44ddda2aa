/** The averages report: one rendered average per subject, ranked, then the
    overall average under a fixed label (ecole-directe-moyenne.mjs, lines 116-155). */
module Report {
  import opened Wrappers
  import opened Numbers
  import opened Grades
  import opened Averages
  import opened Ranking

  /** The key under which the overall average is displayed. */
  const OverallLabel := "MOYENNE GENERALE"

  /** `n.toFixed(digits)`: a finite value goes through the renderer; a
      non-finite one is shown as "NaN". */
  function Render(toFixed: (real, nat) -> string, digits: nat, n: Number): string
  {
    if n.Finite? then toFixed(n.val, digits) else "NaN"
  }

  /** The subject averages, in subject order. */
  function SubjectAverages(gs: seq<Subject>, over: Number): (avgs: seq<Number>)
    ensures |avgs| == |gs|
    ensures forall i :: 0 <= i < |gs| ==> avgs[i] == SubjectAverage(gs[i].entries, over)
  {
    if |gs| == 0 then [] else SubjectAverages(gs[..|gs|-1], over) + [SubjectAverage(gs[|gs|-1].entries, over)]
  }

  /** `displayedAverages` before ranking: one row per subject, in subject order. */
  function SubjectRows(toFixed: (real, nat) -> string, digits: nat, gs: seq<Subject>, over: Number): (rows: seq<Row>)
    ensures |rows| == |gs|
    ensures forall i :: 0 <= i < |gs| ==>
      rows[i] == Row(gs[i].name, Render(toFixed, digits, SubjectAverage(gs[i].entries, over)))
  {
    if |gs| == 0 then []
    else
      var last := gs[|gs|-1];
      SubjectRows(toFixed, digits, gs[..|gs|-1], over) + [Row(last.name, Render(toFixed, digits, SubjectAverage(last.entries, over)))]
  }

  /** The report for the records of period `selected`, averages out of `over`. */
  function Compute(parseFloat: string -> Number, toFixed: (real, nat) -> string, digits: nat,
                   notes: seq<GradeRecord>, selected: Option<string>, over: Number): (report: seq<Row>)
    ensures |report| == |Group(parseFloat, notes, selected)| + 1
    ensures report[|report|-1].name == OverallLabel
    ensures multiset(report[..|report|-1])
      == multiset(SubjectRows(toFixed, digits, Group(parseFloat, notes, selected), over))
  {
    var gs := Group(parseFloat, notes, selected);
    var rows := SubjectRows(toFixed, digits, gs, over);
    var overall := OverallAverage(SubjectAverages(gs, over));
    var report := Rank(parseFloat, rows) + [Row(OverallLabel, Render(toFixed, digits, overall))];
    assert report[..|report|-1] == Rank(parseFloat, rows);
    assert |Rank(parseFloat, rows)| == |multiset(rows)| == |rows|;
    report
  }

  /** The overall row shows the plain mean of the subject averages, unrounded
      before the mean is taken. */
  lemma OverallRowIsMean(parseFloat: string -> Number, toFixed: (real, nat) -> string, digits: nat,
                         notes: seq<GradeRecord>, selected: Option<string>, over: Number)
    ensures var gs := Group(parseFloat, notes, selected);
      var report := Compute(parseFloat, toFixed, digits, notes, selected, over);
      report[|report|-1] == Row(OverallLabel, Render(toFixed, digits, OverallAverage(SubjectAverages(gs, over))))
  {
  }

  /** Whenever every rendered subject average parses back to a number, the
      subject rows are in non-increasing order, and subjects with the same
      shown value keep their first-encounter order. */
  lemma RankedRowsOrdered(parseFloat: string -> Number, toFixed: (real, nat) -> string, digits: nat,
                          notes: seq<GradeRecord>, selected: Option<string>, over: Number, k: Number)
    requires AllKeysFinite(parseFloat, SubjectRows(toFixed, digits, Group(parseFloat, notes, selected), over))
    ensures var report := Compute(parseFloat, toFixed, digits, notes, selected, over);
      && NonIncreasing(parseFloat, report[..|report|-1])
      && WithKey(parseFloat, report[..|report|-1], k)
         == WithKey(parseFloat, SubjectRows(toFixed, digits, Group(parseFloat, notes, selected), over), k)
  {
    var rows := SubjectRows(toFixed, digits, Group(parseFloat, notes, selected), over);
    var report := Compute(parseFloat, toFixed, digits, notes, selected, over);
    assert report[..|report|-1] == Rank(parseFloat, rows);
    RankIsOrdered(parseFloat, rows);
    RankIsStable(parseFloat, rows, k);
  }

  lemma {:induction false} EntriesForLetterOnly(parseFloat: string -> Number, notes: seq<GradeRecord>, selected: Option<string>, name: string)
    requires forall r :: r in notes && InSelected(r, selected) && r.subject == name ==> r.isLetter
    ensures EntriesFor(parseFloat, notes, selected, name) == []
  {
    if |notes| > 0 {
      var init := notes[..|notes|-1];
      assert forall r :: r in init ==> r in notes;
      EntriesForLetterOnly(parseFloat, init, selected, name);
    }
  }

  /** A subject of the selected period whose grades are all letters has an
      undefined average, and so does the overall average: the script's guard
      for this case tests the wrong object and never fires. */
  lemma LetterOnlySubjectUndefinesOverall(parseFloat: string -> Number, toFixed: (real, nat) -> string, digits: nat,
                                          notes: seq<GradeRecord>, selected: Option<string>, over: Number, r: GradeRecord)
    requires r in notes && InSelected(r, selected)
    requires forall r' :: r' in notes && InSelected(r', selected) && r'.subject == r.subject ==> r'.isLetter
    ensures var report := Compute(parseFloat, toFixed, digits, notes, selected, over);
      && Row(r.subject, "NaN") in report
      && report[|report|-1] == Row(OverallLabel, "NaN")
  {
    var gs := Group(parseFloat, notes, selected);
    GroupIsFaithful(parseFloat, notes, selected);
    GroupSubjects(parseFloat, notes, selected);
    var i :| 0 <= i < |gs| && gs[i].name == r.subject;
    EntriesForLetterOnly(parseFloat, notes, selected, r.subject);
    assert gs[i].entries == [];
    var avgs := SubjectAverages(gs, over);
    assert avgs[i] == Undefined;
    var rows := SubjectRows(toFixed, digits, gs, over);
    assert rows[i] == Row(r.subject, "NaN");
    var report := Compute(parseFloat, toFixed, digits, notes, selected, over);
    assert rows[i] in multiset(report[..|report|-1]);
    assert rows[i] in report[..|report|-1];
    assert OverallAverage(avgs) == Undefined;
    OverallRowIsMean(parseFloat, toFixed, digits, notes, selected, over);
  }

  /** With no record in the selected period there is no subject row, and the
      overall average (0 / 0) is undefined. */
  lemma EmptyPeriodReport(parseFloat: string -> Number, toFixed: (real, nat) -> string, digits: nat,
                          notes: seq<GradeRecord>, selected: Option<string>, over: Number)
    requires forall r :: r in notes ==> !InSelected(r, selected)
    ensures Compute(parseFloat, toFixed, digits, notes, selected, over) == [Row(OverallLabel, "NaN")]
  {
    GroupSubjects(parseFloat, notes, selected);
    var gs := Group(parseFloat, notes, selected);
    assert forall i :: 0 <= i < |gs| ==> Names(gs)[i] in Names(gs);
  }

  /** Records outside the selected period have no effect on the report. */
  lemma ReportIgnoresOtherPeriods(parseFloat: string -> Number, toFixed: (real, nat) -> string, digits: nat,
                                  notes: seq<GradeRecord>, selected: Option<string>, over: Number)
    ensures Compute(parseFloat, toFixed, digits, notes, selected, over)
      == Compute(parseFloat, toFixed, digits, InPeriod(notes, selected), selected, over)
  {
    GroupIgnoresOtherPeriods(parseFloat, notes, selected);
  }
}
