/** One run of the averaging script after the grades have been fetched
    (ecole-directe-moyenne.mjs, lines 71-155): choose a period, `over` and a
    precision through three prompts, then compute the report. */
module Session {
  import opened Wrappers
  import opened Numbers
  import opened Grades
  import opened Ranking
  import opened Report
  import opened Prompt

  /** The JavaScript primitives the script relies on, left abstract:
      `parseFloat`, `parseInt` (None for NaN), `isNaN` on a string, and
      `toFixed` for a finite value and a digit count in 0..100. */
  datatype Runtime = Runtime(
    parseFloat: string -> Number,
    parseInt: string -> Option<int>,
    isNaN: string -> bool,
    toFixed: (real, nat) -> string)

  /** How the run ends: with the displayed table, with an exception, or still
      waiting at a prompt because the replies ran out. */
  datatype Ending = Completed(report: seq<Row>) | Failed(error: string) | Waiting

  const DefaultOver := 20
  const DefaultPrecision := 1

  /** `toFixed` turns its digit count to an integer (NaN becomes 0) and throws
      a RangeError outside 0..100. */
  function Digits(precision: Option<int>): (d: Option<nat>)
    ensures d.Some? <==> precision.None? || 0 <= precision.value <= 100
    ensures precision.Some? && d.Some? ==> d.value == precision.value
    ensures precision.None? ==> d == Some(0)
  {
    if precision.None? then Some(0)
    else if 0 <= precision.value <= 100 then Some(precision.value)
    else None
  }

  function AsNumber(k: Option<int>): Number
  {
    if k.Some? then Finite(k.value as real) else Undefined
  }

  /** The script from the period list to the displayed table, with the
      intended period check in place of the one on line 78. */
  function Run(rt: Runtime, notes: seq<GradeRecord>, replies: seq<string>): Ending
  {
    var ps := Periods(notes);
    match SafePromptNumber(replies, Some(DefaultPeriodIndex(notes)), PeriodInRange(rt.parseInt, |ps|), rt.parseInt)
    case Exhausted => Waiting
    case Threw(e) => Failed(e)
    case Answered(index, n) => AskOver(rt, notes, SelectPeriod(ps, index), replies[n..])
  }

  /** The second prompt: the scale the averages are expressed on. */
  function AskOver(rt: Runtime, notes: seq<GradeRecord>, selected: Option<string>, replies: seq<string>): Ending
  {
    match SafePromptNumber(replies, Some(DefaultOver), NotNaN(rt.isNaN), rt.parseInt)
    case Exhausted => Waiting
    case Threw(e) => Failed(e)
    case Answered(over, n) => AskPrecision(rt, notes, selected, over, replies[n..])
  }

  /** The third prompt: the number of digits shown after the point. */
  function AskPrecision(rt: Runtime, notes: seq<GradeRecord>, selected: Option<string>,
                        over: Option<int>, replies: seq<string>): Ending
  {
    match SafePromptNumber(replies, Some(DefaultPrecision), NotNaN(rt.isNaN), rt.parseInt)
    case Exhausted => Waiting
    case Threw(e) => Failed(e)
    case Answered(precision, _) => Finish(rt, notes, selected, over, precision)
  }

  /** The computation once the three answers are known. */
  function Finish(rt: Runtime, notes: seq<GradeRecord>, selected: Option<string>,
                  over: Option<int>, precision: Option<int>): (e: Ending)
    ensures e.Completed? <==> Digits(precision).Some?
    ensures e.Completed? ==> |e.report| > 0 && e.report[|e.report| - 1].name == OverallLabel
  {
    var digits := Digits(precision);
    if digits.None? then Failed(ToFixedRangeError)
    else Completed(Compute(rt.parseFloat, rt.toFixed, digits.value, notes, selected, AsNumber(over)))
  }

  /** A precision that parsed to NaN is shown with no digit after the point. */
  lemma NaNPrecisionShowsNoDigits(rt: Runtime, notes: seq<GradeRecord>, selected: Option<string>, over: Option<int>)
    ensures Finish(rt, notes, selected, over, None)
      == Completed(Compute(rt.parseFloat, rt.toFixed, 0, notes, selected, AsNumber(over)))
  {
  }

  const ToFixedRangeError := "RangeError: toFixed() digits argument must be between 0 and 100"

  lemma PrecisionStageFailsOnlyInToFixed(rt: Runtime, notes: seq<GradeRecord>, selected: Option<string>,
                                         over: Option<int>, replies: seq<string>)
    ensures var e := AskPrecision(rt, notes, selected, over, replies);
      e.Failed? ==> e.error == ToFixedRangeError
  {
    NotNaNNeverRaises(rt.isNaN);
    ChecksThatNeverRaiseNeverThrow(replies, Some(DefaultPrecision), NotNaN(rt.isNaN), rt.parseInt);
  }

  lemma ScaleStageFailsOnlyInToFixed(rt: Runtime, notes: seq<GradeRecord>, selected: Option<string>, replies: seq<string>)
    ensures var e := AskOver(rt, notes, selected, replies);
      e.Failed? ==> e.error == ToFixedRangeError
  {
    NotNaNNeverRaises(rt.isNaN);
    var o := SafePromptNumber(replies, Some(DefaultOver), NotNaN(rt.isNaN), rt.parseInt);
    ChecksThatNeverRaiseNeverThrow(replies, Some(DefaultOver), NotNaN(rt.isNaN), rt.parseInt);
    if o.Answered? {
      PrecisionStageFailsOnlyInToFixed(rt, notes, selected, o.value, replies[o.consumed..]);
    }
  }

  /** With the intended period check in place of line 78, none of the three
      checks throws, so the only exception a run can end with is the RangeError
      `toFixed` raises for a precision outside 0..100. */
  lemma RunFailsOnlyInToFixed(rt: Runtime, notes: seq<GradeRecord>, replies: seq<string>)
    ensures var e := Run(rt, notes, replies);
      e.Failed? ==> e.error == ToFixedRangeError
  {
    var ps := Periods(notes);
    PeriodInRangeNeverRaises(rt.parseInt, |ps|);
    var o := SafePromptNumber(replies, Some(DefaultPeriodIndex(notes)), PeriodInRange(rt.parseInt, |ps|), rt.parseInt);
    ChecksThatNeverRaiseNeverThrow(replies, Some(DefaultPeriodIndex(notes)), PeriodInRange(rt.parseInt, |ps|), rt.parseInt);
    if o.Answered? {
      ScaleStageFailsOnlyInToFixed(rt, notes, SelectPeriod(ps, o.value), replies[o.consumed..]);
    }
  }

  /** An empty reply at the third prompt keeps one digit after the point. */
  lemma DefaultPrecisionKept(rt: Runtime, notes: seq<GradeRecord>, selected: Option<string>,
                             over: Option<int>, rest: seq<string>)
    ensures AskPrecision(rt, notes, selected, over, [""] + rest) == Finish(rt, notes, selected, over, Some(1))
  {
    EmptyReplyGivesDefault([""] + rest, Some(DefaultPrecision), NotNaN(rt.isNaN), rt.parseInt);
  }

  /** Empty replies at the second and third prompts keep averages out of 20
      with one digit after the point. */
  lemma DefaultScaleKept(rt: Runtime, notes: seq<GradeRecord>, selected: Option<string>, rest: seq<string>)
    ensures AskOver(rt, notes, selected, [""] + ([""] + rest)) == Finish(rt, notes, selected, Some(20), Some(1))
  {
    var r := [""] + ([""] + rest);
    EmptyReplyGivesDefault([""] + rest, Some(DefaultOver), NotNaN(rt.isNaN), rt.parseInt);
    assert r[1..] == [""] + rest;
    DefaultPrecisionKept(rt, notes, selected, Some(20), rest);
  }

  /** Three empty replies keep every default: the last period listed, averages
      out of 20, one digit after the point. */
  lemma DefaultsRun(rt: Runtime, notes: seq<GradeRecord>, rest: seq<string>)
    requires |notes| > 0
    ensures var ps := Periods(notes);
      Run(rt, notes, ["", "", ""] + rest) == Finish(rt, notes, Some(ps[|ps| - 1]), Some(20), Some(1))
  {
    var ps := Periods(notes);
    var k := DefaultPeriodIndex(notes);
    var r := [""] + ([""] + ([""] + rest));
    assert r == ["", "", ""] + rest;
    EmptyReplyGivesDefault([""] + ([""] + rest), Some(k), PeriodInRange(rt.parseInt, |ps|), rt.parseInt);
    assert r[1..] == [""] + ([""] + rest);
    assert SelectPeriod(ps, Some(k)) == Some(ps[|ps| - 1]);
    DefaultScaleKept(rt, notes, Some(ps[|ps| - 1]), rest);
  }

  /** A completed run reports on one of the listed periods, and only when the
      records hold at least one period; the report ends with the overall row. */
  lemma CompletedRunIsWellFormed(rt: Runtime, notes: seq<GradeRecord>, replies: seq<string>)
    ensures var e := Run(rt, notes, replies);
      e.Completed? ==> |e.report| > 0 && e.report[|e.report| - 1].name == OverallLabel
    ensures Run(rt, notes, replies).Completed? && |notes| > 0 ==>
      var ps := Periods(notes);
      var o := SafePromptNumber(replies, Some(DefaultPeriodIndex(notes)), PeriodInRange(rt.parseInt, |ps|), rt.parseInt);
      o.Answered? && SelectPeriod(ps, o.value).Some?
  {
    var ps := Periods(notes);
    PeriodPromptInRange(rt.parseInt, |ps|, replies);
    if |notes| > 0 {
      assert notes[0].period in ps;
    }
  }
}
