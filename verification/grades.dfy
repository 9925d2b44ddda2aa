/** Grade records, the list of grading periods, and the grouping of one
    period's records by subject (ecole-directe-moyenne.mjs, lines 71-113). */
module Grades {
  import opened Wrappers
  import opened Numbers
  import opened Seqs
  import opened Text

  /** One grade as the grades service returns it: `libelleMatiere`,
      `codePeriode`, `noteSur`, `valeur`, `coef` and `enLettre`. The three
      numeric fields are decimal-comma text such as "17,4". */
  datatype GradeRecord = GradeRecord(
    subject: string,
    period: string,
    outOf: string,
    value: string,
    coef: string,
    isLetter: bool)

  /** One numeric grade of a subject: the normalised value (grade / maximum)
      and its coefficient. */
  datatype Entry = Entry(value: Number, coef: Number)

  /** A subject and the numeric entries collected for it, in record order. */
  datatype Subject = Subject(name: string, entries: seq<Entry>)

  /* ---------------- Periods ---------------- */

  function PeriodCodes(notes: seq<GradeRecord>): (codes: seq<string>)
    ensures |codes| == |notes|
    ensures forall i :: 0 <= i < |notes| ==> codes[i] == notes[i].period
  {
    if |notes| == 0 then [] else PeriodCodes(notes[..|notes|-1]) + [notes[|notes|-1].period]
  }

  /** The periods offered to the user: the distinct period codes in the order
      they first occur in the records. */
  function Periods(notes: seq<GradeRecord>): (ps: seq<string>)
    ensures NoDuplicates(ps)
    ensures forall i :: 0 <= i < |notes| ==> notes[i].period in ps
    ensures forall p :: p in ps ==> exists i :: 0 <= i < |notes| && notes[i].period == p
  {
    Distinct(PeriodCodes(notes))
  }

  /** The periods are listed in the order in which they first occur. */
  lemma PeriodsInFirstOccurrenceOrder(notes: seq<GradeRecord>)
    ensures forall i, j :: 0 <= i < j < |Periods(notes)| ==>
      && Periods(notes)[i] in PeriodCodes(notes) && Periods(notes)[j] in PeriodCodes(notes)
      && FirstIndex(PeriodCodes(notes), Periods(notes)[i]) < FirstIndex(PeriodCodes(notes), Periods(notes)[j])
  {
    var codes := PeriodCodes(notes);
    assert Periods(notes) == Distinct(codes);
    assert forall p :: p in Periods(notes) ==> p in codes;
    DistinctFirstOccurrenceOrder(codes);
  }

  /** The index proposed by default: the last period listed (-1 when there is none). */
  function DefaultPeriodIndex(notes: seq<GradeRecord>): (k: int)
    ensures k == |Periods(notes)| - 1
    ensures 0 <= k <==> |notes| > 0
  {
    assert |notes| > 0 ==> notes[0].period in Periods(notes);
    |Periods(notes)| - 1
  }

  /** `availablePeriods[k]`: an index outside the list yields `undefined`. */
  function SelectPeriod(ps: seq<string>, k: Option<int>): (sel: Option<string>)
    ensures sel.Some? <==> k.Some? && 0 <= k.value < |ps|
    ensures sel.Some? ==> sel.value == ps[k.value]
  {
    if k.Some? && 0 <= k.value < |ps| then Some(ps[k.value]) else None
  }

  /** Selecting by index picks one of the records' periods; the default index
      selects a period exactly when a record exists; and every record's period
      can be selected by its position in the list. */
  lemma SelectedPeriodIsListed(notes: seq<GradeRecord>, k: Option<int>)
    ensures SelectPeriod(Periods(notes), Some(DefaultPeriodIndex(notes))).Some? <==> |notes| > 0
    ensures var sel := SelectPeriod(Periods(notes), k);
      sel.Some? ==> exists i :: 0 <= i < |notes| && notes[i].period == sel.value
    ensures forall i :: 0 <= i < |notes| ==>
      && notes[i].period in Periods(notes)
      && SelectPeriod(Periods(notes), Some(FirstIndex(Periods(notes), notes[i].period))) == Some(notes[i].period)
  {
    var ps := Periods(notes);
    var sel := SelectPeriod(ps, k);
    if sel.Some? {
      assert ps[k.value] in ps;
    }
  }

  /* ---------------- Grouping ---------------- */

  /** `getFloat`: the first comma becomes a point, then `parseFloat`. */
  function GetFloat(parseFloat: string -> Number, s: string): Number
  {
    parseFloat(ReplaceFirst(s, ',', '.'))
  }

  /** `getFloat` reads a decimal comma as a point: a string without a comma
      is parsed as it is, and otherwise only its first comma is replaced. */
  lemma GetFloatReadsDecimalComma(parseFloat: string -> Number, s: string)
    ensures ',' !in s ==> GetFloat(parseFloat, s) == parseFloat(s)
    ensures ',' in s ==>
      var k := FirstIndex(s, ',');
      GetFloat(parseFloat, s) == parseFloat(s[..k] + "." + s[k + 1..])
  {
    if ',' in s {
      var k := FirstIndex(s, ',');
      var t := ReplaceFirst(s, ',', '.');
      assert t == s[..k] + "." + s[k + 1..];
    }
  }

  /** The entry a numeric record contributes: value / maximum, and the
      coefficient. The value is a number exactly when both strings parse to
      numbers and the maximum is not zero. */
  function EntryOf(parseFloat: string -> Number, r: GradeRecord): (e: Entry)
    ensures e.value.Finite? <==>
      && GetFloat(parseFloat, r.value).Finite? && GetFloat(parseFloat, r.outOf).Finite?
      && GetFloat(parseFloat, r.outOf).val != 0.0
    ensures e.value.Finite? ==> e.value.val * GetFloat(parseFloat, r.outOf).val == GetFloat(parseFloat, r.value).val
    ensures e.coef == GetFloat(parseFloat, r.coef)
  {
    Entry(Div(GetFloat(parseFloat, r.value), GetFloat(parseFloat, r.outOf)),
          GetFloat(parseFloat, r.coef))
  }

  /** `notePeriod != selectedPeriod` is false: an undefined selection matches nothing. */
  predicate InSelected(r: GradeRecord, selected: Option<string>)
  {
    selected.Some? && r.period == selected.value
  }

  function Names(gs: seq<Subject>): (names: seq<string>)
    ensures |names| == |gs|
    ensures forall i :: 0 <= i < |gs| ==> names[i] == gs[i].name
  {
    if |gs| == 0 then [] else Names(gs[..|gs|-1]) + [gs[|gs|-1].name]
  }

  /** Push `e` onto the entries of the subject called `name`. */
  function AddEntry(gs: seq<Subject>, name: string, e: Entry): (gs': seq<Subject>)
    ensures Names(gs') == Names(gs)
    ensures forall i :: 0 <= i < |gs| ==>
      gs'[i].entries == if gs[i].name == name then gs[i].entries + [e] else gs[i].entries
  {
    var r := seq(|gs|, i requires 0 <= i < |gs| =>
      if gs[i].name == name then Subject(name, gs[i].entries + [e]) else gs[i]);
    assert Names(r) == Names(gs);
    r
  }

  /** One iteration of the loop over the records. */
  function Register(parseFloat: string -> Number, gs: seq<Subject>, r: GradeRecord, selected: Option<string>): seq<Subject>
  {
    if !InSelected(r, selected) then gs
    else
      var gs' := if r.subject in Names(gs) then gs else gs + [Subject(r.subject, [])];
      if r.isLetter then gs' else AddEntry(gs', r.subject, EntryOf(parseFloat, r))
  }

  /** `subjectsNotes` after the loop over `notes`. */
  function Group(parseFloat: string -> Number, notes: seq<GradeRecord>, selected: Option<string>): seq<Subject>
  {
    if |notes| == 0 then []
    else Register(parseFloat, Group(parseFloat, notes[..|notes|-1], selected), notes[|notes|-1], selected)
  }

  /* ---------------- Reference definitions ---------------- */

  /** The records of the selected period, in order. */
  function InPeriod(notes: seq<GradeRecord>, selected: Option<string>): seq<GradeRecord>
  {
    if |notes| == 0 then []
    else
      var last := notes[|notes|-1];
      InPeriod(notes[..|notes|-1], selected) + (if InSelected(last, selected) then [last] else [])
  }

  lemma {:induction false} InPeriodMembers(notes: seq<GradeRecord>, selected: Option<string>)
    ensures forall r :: r in InPeriod(notes, selected) <==> r in notes && InSelected(r, selected)
  {
    if |notes| > 0 {
      var init := notes[..|notes|-1];
      var last := notes[|notes|-1];
      assert notes == init + [last];
      InPeriodMembers(init, selected);
    }
  }

  function SubjectsOf(notes: seq<GradeRecord>): (names: seq<string>)
    ensures |names| == |notes|
    ensures forall i :: 0 <= i < |notes| ==> names[i] == notes[i].subject
  {
    if |notes| == 0 then [] else SubjectsOf(notes[..|notes|-1]) + [notes[|notes|-1].subject]
  }

  /** The entries of the numeric records of the selected period for subject `name`, in order. */
  function EntriesFor(parseFloat: string -> Number, notes: seq<GradeRecord>, selected: Option<string>, name: string): seq<Entry>
  {
    if |notes| == 0 then []
    else
      var last := notes[|notes|-1];
      EntriesFor(parseFloat, notes[..|notes|-1], selected, name)
        + (if InSelected(last, selected) && !last.isLetter && last.subject == name
           then [EntryOf(parseFloat, last)] else [])
  }

  /** What the loop is meant to build: the subjects of the selected period in
      first-encounter order, each with exactly its own numeric entries. */
  predicate GroupedFrom(parseFloat: string -> Number, gs: seq<Subject>, notes: seq<GradeRecord>, selected: Option<string>)
  {
    && Names(gs) == Distinct(SubjectsOf(InPeriod(notes, selected)))
    && forall i :: 0 <= i < |gs| ==> gs[i].entries == EntriesFor(parseFloat, notes, selected, gs[i].name)
  }

  lemma {:induction false} EntriesForAbsent(parseFloat: string -> Number, notes: seq<GradeRecord>, selected: Option<string>, name: string)
    requires name !in SubjectsOf(InPeriod(notes, selected))
    ensures EntriesFor(parseFloat, notes, selected, name) == []
  {
    if |notes| > 0 {
      var init := notes[..|notes|-1];
      var last := notes[|notes|-1];
      assert init + [last] == notes;
      InPeriodAppend(init, last, selected);
      var tail := if InSelected(last, selected) then [last] else [];
      SubjectsOfAppend(InPeriod(init, selected), tail);
      assert SubjectsOf(InPeriod(notes, selected)) == SubjectsOf(InPeriod(init, selected)) + SubjectsOf(tail);
      EntriesForAbsent(parseFloat, init, selected, name);
      if InSelected(last, selected) {
        assert SubjectsOf(tail) == [last.subject];
      }
    }
  }

  lemma SubjectsOfAppend(a: seq<GradeRecord>, b: seq<GradeRecord>)
    ensures SubjectsOf(a + b) == SubjectsOf(a) + SubjectsOf(b)
  {
  }

  lemma InPeriodAppend(init: seq<GradeRecord>, r: GradeRecord, selected: Option<string>)
    ensures InPeriod(init + [r], selected)
      == InPeriod(init, selected) + (if InSelected(r, selected) then [r] else [])
  {
    assert (init + [r])[..|init|] == init;
  }

  lemma EntriesForAppend(parseFloat: string -> Number, init: seq<GradeRecord>, r: GradeRecord, selected: Option<string>, name: string)
    ensures EntriesFor(parseFloat, init + [r], selected, name)
      == EntriesFor(parseFloat, init, selected, name)
         + (if InSelected(r, selected) && !r.isLetter && r.subject == name then [EntryOf(parseFloat, r)] else [])
  {
    assert (init + [r])[..|init|] == init;
  }

  lemma RegisterNamesSelected(parseFloat: string -> Number, gs: seq<Subject>, subj: seq<string>, r: GradeRecord, selected: Option<string>)
    requires InSelected(r, selected)
    requires Names(gs) == Distinct(subj)
    ensures Names(Register(parseFloat, gs, r, selected)) == Distinct(subj + [r.subject])
  {
    DistinctSnoc(subj, r.subject);
    var mid := if r.subject in Names(gs) then gs else gs + [Subject(r.subject, [])];
    if r.subject !in Names(gs) {
      assert Names(mid) == Names(gs) + [r.subject];
    }
    if !r.isLetter {
      assert Names(AddEntry(mid, r.subject, EntryOf(parseFloat, r))) == Names(mid);
    }
  }

  /** The subject list after one iteration. */
  lemma RegisterNames(parseFloat: string -> Number, gs: seq<Subject>, init: seq<GradeRecord>, r: GradeRecord, selected: Option<string>)
    requires Names(gs) == Distinct(SubjectsOf(InPeriod(init, selected)))
    ensures Names(Register(parseFloat, gs, r, selected)) == Distinct(SubjectsOf(InPeriod(init + [r], selected)))
  {
    InPeriodAppend(init, r, selected);
    if InSelected(r, selected) {
      SubjectsOfAppend(InPeriod(init, selected), [r]);
      RegisterNamesSelected(parseFloat, gs, SubjectsOf(InPeriod(init, selected)), r, selected);
    } else {
      assert InPeriod(init + [r], selected) == InPeriod(init, selected);
    }
  }

  /** Registering a subject not met before adds it with no entries, which is
      what the reference gives for it. */
  lemma RegisterNewSubject(parseFloat: string -> Number, gs: seq<Subject>, init: seq<GradeRecord>, r: GradeRecord, selected: Option<string>)
    requires Names(gs) == Distinct(SubjectsOf(InPeriod(init, selected)))
    requires forall i :: 0 <= i < |gs| ==> gs[i].entries == EntriesFor(parseFloat, init, selected, gs[i].name)
    ensures var mid := if r.subject in Names(gs) then gs else gs + [Subject(r.subject, [])];
      forall i :: 0 <= i < |mid| ==> mid[i].entries == EntriesFor(parseFloat, init, selected, mid[i].name)
  {
    if r.subject !in Names(gs) {
      var mid := gs + [Subject(r.subject, [])];
      assert r.subject !in SubjectsOf(InPeriod(init, selected));
      EntriesForAbsent(parseFloat, init, selected, r.subject);
      assert mid[|gs|].entries == EntriesFor(parseFloat, init, selected, mid[|gs|].name);
    }
  }

  /** Pushing the record's entry onto its subject, when it is numeric, keeps
      every entry list equal to the reference one. */
  lemma PushEntry(parseFloat: string -> Number, mid: seq<Subject>, init: seq<GradeRecord>, r: GradeRecord, selected: Option<string>)
    requires InSelected(r, selected)
    requires forall i :: 0 <= i < |mid| ==> mid[i].entries == EntriesFor(parseFloat, init, selected, mid[i].name)
    ensures var gs' := if r.isLetter then mid else AddEntry(mid, r.subject, EntryOf(parseFloat, r));
      forall i :: 0 <= i < |gs'| ==> gs'[i].entries == EntriesFor(parseFloat, init + [r], selected, gs'[i].name)
  {
    var gs' := if r.isLetter then mid else AddEntry(mid, r.subject, EntryOf(parseFloat, r));
    assert Names(gs') == Names(mid);
    forall i | 0 <= i < |gs'|
      ensures gs'[i].entries == EntriesFor(parseFloat, init + [r], selected, gs'[i].name)
    {
      var name := mid[i].name;
      assert gs'[i].name == name by { assert Names(gs')[i] == Names(mid)[i]; }
      EntriesForAppend(parseFloat, init, r, selected, name);
    }
  }

  /** The entry lists after one iteration. */
  lemma RegisterEntries(parseFloat: string -> Number, gs: seq<Subject>, init: seq<GradeRecord>, r: GradeRecord, selected: Option<string>)
    requires Names(gs) == Distinct(SubjectsOf(InPeriod(init, selected)))
    requires forall i :: 0 <= i < |gs| ==> gs[i].entries == EntriesFor(parseFloat, init, selected, gs[i].name)
    ensures var gs' := Register(parseFloat, gs, r, selected);
      forall i :: 0 <= i < |gs'| ==> gs'[i].entries == EntriesFor(parseFloat, init + [r], selected, gs'[i].name)
  {
    if !InSelected(r, selected) {
      forall i | 0 <= i < |gs|
        ensures gs[i].entries == EntriesFor(parseFloat, init + [r], selected, gs[i].name)
      {
        EntriesForAppend(parseFloat, init, r, selected, gs[i].name);
      }
    } else {
      var mid := if r.subject in Names(gs) then gs else gs + [Subject(r.subject, [])];
      RegisterNewSubject(parseFloat, gs, init, r, selected);
      PushEntry(parseFloat, mid, init, r, selected);
    }
  }

  /** The grouping loop builds exactly the reference grouping. */
  lemma {:induction false} GroupIsFaithful(parseFloat: string -> Number, notes: seq<GradeRecord>, selected: Option<string>)
    ensures GroupedFrom(parseFloat, Group(parseFloat, notes, selected), notes, selected)
  {
    if |notes| > 0 {
      var init := notes[..|notes|-1];
      GroupIsFaithful(parseFloat, init, selected);
      assert init + [notes[|notes|-1]] == notes;
      RegisterNames(parseFloat, Group(parseFloat, init, selected), init, notes[|notes|-1], selected);
      RegisterEntries(parseFloat, Group(parseFloat, init, selected), init, notes[|notes|-1], selected);
    }
  }

  /** Every subject is registered once, and exactly the subjects met in the
      selected period are registered, letter-only ones included. */
  lemma GroupSubjects(parseFloat: string -> Number, notes: seq<GradeRecord>, selected: Option<string>)
    ensures NoDuplicates(Names(Group(parseFloat, notes, selected)))
    ensures forall r :: r in notes && InSelected(r, selected) ==> r.subject in Names(Group(parseFloat, notes, selected))
    ensures forall n :: n in Names(Group(parseFloat, notes, selected)) ==>
      exists r :: r in notes && InSelected(r, selected) && r.subject == n
  {
    var gs := Group(parseFloat, notes, selected);
    var ins := InPeriod(notes, selected);
    GroupIsFaithful(parseFloat, notes, selected);
    assert Names(gs) == Distinct(SubjectsOf(ins));
    InPeriodMembers(notes, selected);
    SubjectsOfMembers(ins);
  }

  lemma SubjectsOfMembers(rs: seq<GradeRecord>)
    ensures forall r :: r in rs ==> r.subject in SubjectsOf(rs)
    ensures forall n :: n in SubjectsOf(rs) ==> exists r :: r in rs && r.subject == n
  {
    forall r | r in rs
      ensures r.subject in SubjectsOf(rs)
    {
      var i :| 0 <= i < |rs| && rs[i] == r;
      assert SubjectsOf(rs)[i] == r.subject;
    }
    forall n | n in SubjectsOf(rs)
      ensures exists r :: r in rs && r.subject == n
    {
      var i :| 0 <= i < |rs| && SubjectsOf(rs)[i] == n;
      assert rs[i] in rs;
    }
  }

  /** Records of other periods change nothing: grouping all the records is
      grouping only the selected period's records. */
  lemma {:induction false} GroupIgnoresOtherPeriods(parseFloat: string -> Number, notes: seq<GradeRecord>, selected: Option<string>)
    ensures Group(parseFloat, notes, selected) == Group(parseFloat, InPeriod(notes, selected), selected)
  {
    if |notes| > 0 {
      var init := notes[..|notes|-1];
      var r := notes[|notes|-1];
      GroupIgnoresOtherPeriods(parseFloat, init, selected);
      var ins := InPeriod(init, selected);
      if InSelected(r, selected) {
        assert InPeriod(notes, selected) == ins + [r];
        assert (ins + [r])[..|ins|] == ins;
        assert Group(parseFloat, ins + [r], selected)
          == Register(parseFloat, Group(parseFloat, ins, selected), r, selected);
      } else {
        assert InPeriod(notes, selected) == ins;
      }
    }
  }
}
