# ecole-directe-moyenne: grade averages, modelled in Dafny

`ecole-directe-moyenne.mjs` logs in to EcoleDirecte and fetches a student's
grades. It then asks three questions through `safePromptNumber`: which
period, what scale (`over`), and how many digits. It groups the period's
grades by subject and computes each subject's coefficient-weighted average on
that scale. It ranks the subjects from best to worst and appends the plain
mean of the subject averages under the label `MOYENNE GENERALE`.

This project models that computation (lines 71-155) and the prompt loop
(lines 195-207) as pure functions, and proves what they promise.

Modules:

- `Numbers` models JavaScript numbers. A value is either `Finite(real)` or
  `Undefined`, which stands for NaN (and the infinities). `Undefined` absorbs
  `+`, `*` and `/`, and `x / 0` is `Undefined`. It also holds sums over
  sequences and their permutation invariance.
- `Seqs` holds duplicate removal in first-occurrence order. This is what
  `[...new Set(xs)]` does.
- `Text` models `String.prototype.replace` with a one-character pattern. Only
  the first occurrence is replaced.
- `Grades` covers the grade records, the period list, the default period and
  the period selection. It also holds the grouping loop and a reference
  grouping that the loop is proved equal to.
- `Averages` holds the weighted subject average and the overall mean.
- `Ranking` models the sort by parsed displayed value. When every displayed
  value is a number, the program's order is that of a stable insertion sort,
  which the model computes. With a NaN value the engine chooses the order, and
  the model makes one choice (see "## Left out").
- `Report` builds the displayed table.
- `Prompt` models `safePromptNumber` over a finite list of user replies, and
  the `verify` callbacks the script passes to it.
- `Session` models the whole run: the three prompts in sequence, then the
  report.

The JavaScript primitives are parameters with no fixed definition:
`parseFloat` and `parseInt` on strings, `isNaN` on a string, and
`Number.prototype.toFixed` on a finite value.

The code and its comments disagree in two places, and the model follows the
code in both.

- **Empty subject.** The comment at line 127 says a subject with no note has
  an undefined average. The guard at line 128 tests `subjectsNotes.length`,
  and an object has no `length`, so the guard never fires. The subject still
  ends up undefined, because `0 / 0` is NaN. The overall average is a plain
  running sum (line 144), so it becomes NaN as well. It is not the mean of
  the defined averages only (`Report.LetterOnlySubjectUndefinesOverall`).
- **Default precision.** The comment at line 87 says the default is 2, but
  the code passes 1 (line 88). The model uses 1 (`Session.DefaultsRun`).

`Session.Run` uses the corrected period check (see the Findings section),
because the check as written makes every non-empty reply throw.

## Model

| member | source | states |
|---|---|---|
| Seqs.Distinct | ecole-directe-moyenne.mjs:71 | the de-duplicated list has no repeats and holds exactly the elements of its input |
| Seqs.DistinctFirstOccurrenceOrder | ecole-directe-moyenne.mjs:71 | a `Set` keeps insertion order: the survivors appear in increasing order of their first occurrence |
| Grades.Periods | ecole-directe-moyenne.mjs:71 | the available periods have no repeats, every record's period is listed, and every listed period is some record's period |
| Grades.PeriodsInFirstOccurrenceOrder | ecole-directe-moyenne.mjs:71 | the periods are listed in the order in which the records first mention them |
| Grades.DefaultPeriodIndex | ecole-directe-moyenne.mjs:77 | the default index is the last period's, and it is a valid index exactly when there is at least one record |
| Grades.SelectPeriod | ecole-directe-moyenne.mjs:82 | `availablePeriods[periodIndex]`, with `undefined` for an index outside the list or NaN; what the selection means is stated by `Grades.SelectedPeriodIsListed` |
| Grades.SelectedPeriodIsListed | ecole-directe-moyenne.mjs:71-82 | a selected period is always some record's period; the default index selects a period exactly when a record exists; every record's period is selected by its position in the list |
| Text.ReplaceFirst | ecole-directe-moyenne.mjs:106 | a decimal comma is turned into a point at its first occurrence only; every other character, later commas included, is kept |
| Text.ReplaceFirstRoundTrip | ecole-directe-moyenne.mjs:106 | when the new character did not occur in the string, replacing it back restores the original |
| Grades.GetFloat | ecole-directe-moyenne.mjs:106 | `getFloat`: the first comma of the string becomes a point, then `parseFloat` reads it; stated by `Grades.GetFloatReadsDecimalComma` |
| Grades.GetFloatReadsDecimalComma | ecole-directe-moyenne.mjs:106 | a string without a comma is parsed as it is; otherwise only its first comma is read as a decimal point |
| Grades.EntryOf | ecole-directe-moyenne.mjs:108-112 | a numeric record contributes value / maximum and its coefficient; the ratio is a number exactly when both parse to numbers and the maximum is not zero, and then ratio times maximum is the value |
| Grades.InPeriodMembers | ecole-directe-moyenne.mjs:98-99 | the reference filter keeps exactly the records whose period equals the selected one |
| Grades.Group | ecole-directe-moyenne.mjs:91-113 | the loop that fills `subjectsNotes`, one record at a time; what it builds is stated by `Grades.GroupIsFaithful` and `Grades.GroupSubjects` |
| Grades.GroupIsFaithful | ecole-directe-moyenne.mjs:91-113 | the loop registers the selected period's subjects in first-encounter order, each holding exactly its numeric records' entries in record order |
| Grades.GroupSubjects | ecole-directe-moyenne.mjs:99-103 | each subject is registered once; every subject met in the selected period is registered, letter-only ones included, and no other subject is |
| Grades.GroupIgnoresOtherPeriods | ecole-directe-moyenne.mjs:98-99 | grouping all the records gives the same result as grouping only the selected period's records |
| Numbers.Div | ecole-directe-moyenne.mjs:141 | a quotient is a number exactly when both operands are and the divisor is non-zero, and then it times the divisor gives the dividend |
| Numbers.SumOfFinite | ecole-directe-moyenne.mjs:131-138 | a running sum from 0 stays a number exactly when every term is one, and then it equals the real sum |
| Numbers.SumOfPermutation | ecole-directe-moyenne.mjs:135-138 | a running sum does not depend on the order of its terms |
| Averages.SubjectAverage | ecole-directe-moyenne.mjs:130-141 | the subject average is sum(value*coef) / sum(coef) * over; it is a number exactly when `over` and every entry are and the coefficients do not sum to zero; a subject without entries has none |
| Averages.SubjectAverageOrderIndependent | ecole-directe-moyenne.mjs:134-141 | the order of a subject's grades does not change its average |
| Averages.SubjectAverageWithinScale | ecole-directe-moyenne.mjs:106-141 | with every grade between 0 and its maximum and positive coefficients, the average lies between 0 and `over` |
| Averages.OverallAverage | ecole-directe-moyenne.mjs:119-154 | the overall average is the unweighted mean of the subject averages, every subject counting once; it is a number exactly when there is a subject and every subject average is a number |
| Averages.OverallAverageBounds | ecole-directe-moyenne.mjs:144-154 | the overall average lies between the lowest and the highest subject average |
| Averages.OverallAverageOrderIndependent | ecole-directe-moyenne.mjs:124-154 | the order in which subjects are visited does not change the overall average |
| Ranking.Outranks | ecole-directe-moyenne.mjs:149-151 | the comparator `parseFloat(b[1]) - parseFloat(a[1])` is positive, a NaN difference counting as equal; its ordering laws are stated by `Ranking.OutranksIsStrictWeakOrder` |
| Ranking.OutranksIsStrictWeakOrder | ecole-directe-moyenne.mjs:149-151 | the comparator is irreflexive, one-way and transitive, and two rows with numeric keys that neither outranks share their key |
| Ranking.Insert | ecole-directe-moyenne.mjs:149-151 | inserting a row keeps every row and adds exactly the new one |
| Ranking.Rank | ecole-directe-moyenne.mjs:149-151 | sorting the rows is a permutation of them |
| Ranking.InsertKeepsOrder | ecole-directe-moyenne.mjs:149-151 | inserting a row with a numeric key into rows in non-increasing key order keeps them in that order |
| Ranking.RankIsOrdered | ecole-directe-moyenne.mjs:149-151 | when every shown value parses to a number, the rows end up from the best to the worst |
| Ranking.RankIsStable | ecole-directe-moyenne.mjs:149-151 | rows whose shown values parse to the same key keep their original relative order; for the program this holds when every shown value parses to a number, since only then is the comparator consistent and `Array.prototype.sort` bound to be stable |
| Report.Render | ecole-directe-moyenne.mjs:143-155 | `toFixed(precision)` on an average; a non-finite average is shown as "NaN"; its use is stated by `Report.OverallRowIsMean` and `Report.LetterOnlySubjectUndefinesOverall` |
| Report.SubjectRows | ecole-directe-moyenne.mjs:143 | before ranking there is one row per registered subject, in registration order, showing that subject's rendered average |
| Report.Compute | ecole-directe-moyenne.mjs:149-155 | the table has one row per subject plus a last row labelled `MOYENNE GENERALE`, and the subject rows are a permutation of the unranked rows |
| Report.OverallRowIsMean | ecole-directe-moyenne.mjs:153-155 | the last row shows the mean of the unrounded subject averages, rendered with the same precision |
| Report.RankedRowsOrdered | ecole-directe-moyenne.mjs:148-151 | when every shown subject value parses to a number, the displayed subject rows run from the best to the worst, and ties keep their first-encounter order |
| Report.LetterOnlySubjectUndefinesOverall | ecole-directe-moyenne.mjs:101-144 | a subject whose grades in the period are all letters is shown as NaN, and so is the overall average |
| Report.EmptyPeriodReport | ecole-directe-moyenne.mjs:119-155 | with no record in the selected period, the table holds only the overall row, showing NaN (0 / 0) |
| Report.ReportIgnoresOtherPeriods | ecole-directe-moyenne.mjs:98-99 | records of other periods have no effect on the table |
| Prompt.SafePromptNumber | ecole-directe-moyenne.mjs:195-207 | the answer comes from the first reply that is empty (giving the default) or accepted (giving its parseInt); every earlier reply was non-empty and refused; an exception from the check escapes; the prompt waits for ever exactly when every reply is refused |
| Prompt.RefusedRepliesAreSkipped | ecole-directe-moyenne.mjs:202-203 | refused replies leave no trace: the prompt then behaves as if they had not been typed, apart from the count of replies read |
| Prompt.EmptyReplyGivesDefault | ecole-directe-moyenne.mjs:199-200 | an empty reply ends the prompt at once with the default, whatever follows |
| Prompt.ChecksThatNeverRaiseNeverThrow | ecole-directe-moyenne.mjs:195-207 | with a check that never throws, `safePromptNumber` never throws |
| Prompt.NotNaN | ecole-directe-moyenne.mjs:85-88 | `(value) => !isNaN(value)`; its effect on a run is stated by `Session.ScaleStageFailsOnlyInToFixed` and `Session.PrecisionStageFailsOnlyInToFixed` |
| Prompt.NotNaNNeverRaises | ecole-directe-moyenne.mjs:85-88 | the scale and precision check accepts exactly the replies that are not NaN, and never throws |
| Prompt.PeriodInRange | ecole-directe-moyenne.mjs:78 | the period check as intended; stated by `Prompt.PeriodInRangeNeverRaises` and `Prompt.PeriodPromptInRange` |
| Prompt.PeriodInRangeNeverRaises | ecole-directe-moyenne.mjs:78 | the intended period check accepts exactly the replies whose integer value indexes a period, and never throws |
| Prompt.PeriodCheckAsWritten | ecole-directe-moyenne.mjs:78 | the period check as written, which throws a ReferenceError; stated by `Prompt.AsWrittenPeriodPromptOnlyDefault` |
| Prompt.PeriodCheckInverted | ecole-directe-moyenne.mjs:78 | the period check with `value` in place of `index`, true outside the list; stated by `Prompt.InvertedPeriodCheckAcceptsOutOfRange` |
| Prompt.PeriodPromptInRange | ecole-directe-moyenne.mjs:76-79 | with the intended period check, the prompt never throws and answers either the default or a valid index; when a period exists, the answer is always valid |
| Prompt.AsWrittenPeriodPromptOnlyDefault | ecole-directe-moyenne.mjs:78 | with the check as written, the only answer the prompt can give is the default, and the first non-empty reply throws a ReferenceError |
| Prompt.InvertedPeriodCheckAcceptsOutOfRange | ecole-directe-moyenne.mjs:78 | with `value` read in place of `index`, a non-negative index past the list is accepted at once and a valid index is refused |
| Session.Digits | ecole-directe-moyenne.mjs:143-155 | `toFixed` accepts a digit count in 0..100 as it is, reads NaN as 0 digits, and otherwise throws |
| Session.NaNPrecisionShowsNoDigits | ecole-directe-moyenne.mjs:88-155 | a precision reply that parses to NaN completes the run with no digit after the point |
| Session.Finish | ecole-directe-moyenne.mjs:143-155 | the run completes exactly when the precision is acceptable to `toFixed`, and the table then ends with the overall row |
| Session.Run | ecole-directe-moyenne.mjs:76-88 | the three prompts in order, with the intended period check in place of line 78's, each prompt reading the replies the previous one left, then the report; stated by `Session.DefaultsRun`, `Session.RunFailsOnlyInToFixed` and `Session.CompletedRunIsWellFormed` |
| Session.AskOver | ecole-directe-moyenne.mjs:85 | the scale prompt with default 20 and the not-NaN check; stated by `Session.DefaultScaleKept` and `Session.ScaleStageFailsOnlyInToFixed` |
| Session.AskPrecision | ecole-directe-moyenne.mjs:88 | the precision prompt with default 1 and the not-NaN check; stated by `Session.DefaultPrecisionKept` and `Session.PrecisionStageFailsOnlyInToFixed` |
| Session.PrecisionStageFailsOnlyInToFixed | ecole-directe-moyenne.mjs:88-155 | once the scale is known, the only exception left is `toFixed`'s RangeError |
| Session.ScaleStageFailsOnlyInToFixed | ecole-directe-moyenne.mjs:85-155 | once the period is chosen, the only exception left is `toFixed`'s RangeError |
| Session.RunFailsOnlyInToFixed | ecole-directe-moyenne.mjs:76-155 | with the intended period check, none of the three checks throws, so a run can end with no exception other than `toFixed`'s RangeError (with line 78 as written, a non-empty period reply throws a ReferenceError instead) |
| Session.DefaultPrecisionKept | ecole-directe-moyenne.mjs:88 | an empty reply at the precision prompt gives one digit after the point |
| Session.DefaultScaleKept | ecole-directe-moyenne.mjs:85-88 | empty replies at the scale and precision prompts give averages out of 20, shown with one digit |
| Session.DefaultsRun | ecole-directe-moyenne.mjs:76-88 | three empty replies select the last period listed, averages out of 20 and one digit after the point |
| Session.CompletedRunIsWellFormed | ecole-directe-moyenne.mjs:76-155 | a completed run ends with the overall row, and whenever a record exists, the period prompt's answer selects one of the listed periods |

## Left out

- The login, the HTTP requests to EcoleDirecte, the spinners, the console
  tables and the process exit (lines 1-70 and 156-187) are I/O. The model
  starts from the fetched grade records.
- Session.Run: uses `Prompt.PeriodInRange` instead of the check on line 78,
  which throws on every non-empty reply. The prompt with line 78 as written
  is stated by `Prompt.AsWrittenPeriodPromptOnlyDefault` alone.
- The prompt text and the terminal interaction are left out. The user's
  answers are a finite list of replies. When they run out, the prompt is
  `Exhausted` and the run is `Waiting`, where the script would keep waiting.
- `parseFloat`, `parseInt`, `isNaN` and `toFixed` are parameters with no
  definition. Their exact string grammar is not modelled, nor is the IEEE
  rounding of `toFixed`. `Report.Render` shows a non-finite value as "NaN".
- Floating-point arithmetic is modelled with exact reals. NaN and the
  infinities collapse into one `Undefined` value. As a result, a value such
  as `1 / 0 * 0` is `Undefined` here as it is in JavaScript, but a displayed
  "Infinity" is shown as "NaN".
- JavaScript objects are modelled as lists kept in insertion order. Three
  object behaviours are not modelled:
  - integer-like keys, which an object lists first in numeric order;
  - the `in` test seeing inherited names, such as a subject named
    "toString";
  - a subject literally named `MOYENNE GENERALE`, which would share its
    key with the overall row.
- Ranking.Rank: with a NaN key (a letter-only subject, lines 127-144) the
  comparator returns NaN for every pair involving that row, so it is not
  consistent and ECMAScript leaves the sort order to the engine. The model's
  insertion from the right is one admissible choice, not necessarily V8's:
  for shown values A 1, B 2, C NaN, D 2 the model gives B, A, C, D, while
  V8's binary insertion sort, as written, would give B, D, A, C. For such
  inputs only the permutation stated by `Ranking.Rank` carries over to the
  program.
- Ranking.RankIsOrdered: assumes every shown value parses to a number, for the
  reason given under `Ranking.Rank`.
- Ranking.RankIsStable: is proved for every input, but it describes the
  program only when every shown value parses to a number. With a NaN key V8
  can put rows with equal keys out of their input order.
- `ytdl.mjs` is not part of this model.

## Findings

| source | as written | input that shows it | evidently intended | confidence | as-written member | corrected member |
|---|---|---|---|---|---|---|
| ecole-directe-moyenne.mjs:78 | the period check reads `index`, a name declared nowhere, so calling it throws a ReferenceError | any non-empty reply at the period prompt, e.g. "0" | accept a reply whose integer value is a valid period index | not executed | Prompt.AsWrittenPeriodPromptOnlyDefault | Prompt.PeriodPromptInRange |
| ecole-directe-moyenne.mjs:78 | even reading `value`, the check is true for an index outside 0..length-1, and `safePromptNumber` accepts when the check is true | with two periods, the reply "5" is accepted and "0" is asked again | true exactly for 0 <= parseInt(value) < length | not executed | Prompt.InvertedPeriodCheckAcceptsOutOfRange | Prompt.PeriodPromptInRange |
