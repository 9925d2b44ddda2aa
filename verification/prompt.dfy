/** `safePromptNumber` (ecole-directe-moyenne.mjs, lines 195-207) and the
    checks the script hands to it (lines 78, 85 and 88). The interactive prompt
    becomes the sequence of replies the user types, in order. */
module Prompt {
  import opened Wrappers

  /** What a `verify` callback does with a reply: returns a truthy value,
      returns a falsy value, or throws. */
  datatype Verdict = Accepted | Rejected | Raised(error: string)

  /** How a prompt ends: with a value after reading `consumed` replies, with an
      exception escaping `verify`, or still waiting because the replies ran out. */
  datatype Outcome<T> = Answered(value: T, consumed: nat) | Threw(error: string) | Exhausted

  /** A reply the loop passes over: not empty and refused by `verify`. */
  predicate Skipped(reply: string, verify: string -> Verdict)
  {
    reply != "" && verify(reply) == Rejected
  }

  /** The loop of `safePromptNumber`: an empty reply gives the default, a reply
      `verify` accepts gives `parseInt(reply)`, a refused one is asked again. */
  function SafePromptNumber<T>(replies: seq<string>, default: T, verify: string -> Verdict,
                               parseInt: string -> T): (o: Outcome<T>)
    ensures o.Answered? ==>
      && 1 <= o.consumed <= |replies|
      && (forall j :: 0 <= j < o.consumed - 1 ==> Skipped(replies[j], verify))
      && var last := replies[o.consumed - 1];
         || (last == "" && o.value == default)
         || (last != "" && verify(last) == Accepted && o.value == parseInt(last))
    ensures o.Threw? ==>
      exists k :: 0 <= k < |replies| && (forall j :: 0 <= j < k ==> Skipped(replies[j], verify))
        && replies[k] != "" && verify(replies[k]) == Raised(o.error)
    ensures o.Exhausted? <==> forall j :: 0 <= j < |replies| ==> Skipped(replies[j], verify)
  {
    if |replies| == 0 then Exhausted
    else if replies[0] == "" then Answered(default, 1)
    else
      match verify(replies[0])
      case Accepted => Answered(parseInt(replies[0]), 1)
      case Raised(e) => Threw(e)
      case Rejected =>
        var rest := replies[1..];
        var o := SafePromptNumber(rest, default, verify, parseInt);
        assert forall j :: 0 < j < |replies| ==> replies[j] == rest[j-1];
        if o.Answered? then Answered(o.value, o.consumed + 1)
        else if o.Threw? then
          var k :| 0 <= k < |rest| && (forall j :: 0 <= j < k ==> Skipped(rest[j], verify))
            && rest[k] != "" && verify(rest[k]) == Raised(o.error);
          assert replies[k + 1] == rest[k];
          o
        else o
  }

  /** Refused replies leave no trace: the prompt after them behaves as if they
      had never been typed, apart from the replies counted. */
  lemma {:induction false} RefusedRepliesAreSkipped<T>(refused: seq<string>, replies: seq<string>, default: T,
                                                       verify: string -> Verdict, parseInt: string -> T)
    requires forall j :: 0 <= j < |refused| ==> Skipped(refused[j], verify)
    ensures var o := SafePromptNumber(replies, default, verify, parseInt);
      SafePromptNumber(refused + replies, default, verify, parseInt)
        == if o.Answered? then Answered(o.value, o.consumed + |refused|) else o
  {
    if |refused| == 0 {
      assert refused + replies == replies;
    } else {
      assert (refused + replies)[0] == refused[0];
      assert (refused + replies)[1..] == refused[1..] + replies;
      RefusedRepliesAreSkipped(refused[1..], replies, default, verify, parseInt);
    }
  }

  /** An empty reply ends the prompt at once with the default, whatever follows. */
  lemma EmptyReplyGivesDefault<T>(rest: seq<string>, default: T, verify: string -> Verdict, parseInt: string -> T)
    ensures SafePromptNumber([""] + rest, default, verify, parseInt) == Answered(default, 1)
  {
    assert ([""] + rest)[0] == "";
  }

  /** A check that never throws leaves the prompt nothing to throw. */
  lemma ChecksThatNeverRaiseNeverThrow<T>(replies: seq<string>, default: T, verify: string -> Verdict, parseInt: string -> T)
    requires forall v :: !verify(v).Raised?
    ensures !SafePromptNumber(replies, default, verify, parseInt).Threw?
  {
  }

  /* ---------------- The checks ---------------- */

  /** `(value) => !isNaN(value)`, the check for `over` and `precision`. */
  function NotNaN(isNaN: string -> bool): string -> Verdict
  {
    (v: string) => if isNaN(v) then Rejected else Accepted
  }

  /** The `over` and precision check accepts exactly the replies that are
      not NaN, and never throws. */
  lemma NotNaNNeverRaises(isNaN: string -> bool)
    ensures forall v :: !NotNaN(isNaN)(v).Raised?
    ensures forall v :: NotNaN(isNaN)(v) == Accepted <==> !isNaN(v)
  {
  }

  /** The period check as intended: accept a reply whose integer value indexes
      one of the `count` periods. */
  function PeriodInRange(parseInt: string -> Option<int>, count: int): string -> Verdict
  {
    (v: string) =>
      var k := parseInt(v);
      if k.Some? && 0 <= k.value < count then Accepted else Rejected
  }

  /** The intended period check never throws and accepts exactly the replies
      whose integer value indexes one of the `count` periods. */
  lemma PeriodInRangeNeverRaises(parseInt: string -> Option<int>, count: int)
    ensures forall v :: !PeriodInRange(parseInt, count)(v).Raised?
    ensures forall v :: PeriodInRange(parseInt, count)(v) == Accepted <==>
      parseInt(v).Some? && 0 <= parseInt(v).value < count
  {
  }

  /** Line 78 as written: the check reads the undeclared `index`, which
      throws before the number of periods is ever consulted. */
  function PeriodCheckAsWritten(): string -> Verdict
  {
    (v: string) => Raised("ReferenceError: index is not defined")
  }

  /** Line 78 with `value` read in place of `index`: it is true for an index
      OUTSIDE the list (NaN compares false both ways). */
  function PeriodCheckInverted(parseInt: string -> Option<int>, count: int): string -> Verdict
  {
    (v: string) =>
      var k := parseInt(v);
      if k.Some? && (k.value < 0 || k.value >= count) then Accepted else Rejected
  }

  /** With the intended check the period prompt answers either the default or a
      valid index; when a period exists the default is valid too. */
  lemma PeriodPromptInRange(parseInt: string -> Option<int>, count: int, replies: seq<string>)
    ensures var o := SafePromptNumber(replies, Some(count - 1), PeriodInRange(parseInt, count), parseInt);
      o.Answered? ==>
        || o.value == Some(count - 1)
        || (o.value.Some? && 0 <= o.value.value < count)
    ensures var o := SafePromptNumber(replies, Some(count - 1), PeriodInRange(parseInt, count), parseInt);
      o.Answered? && count > 0 ==> o.value.Some? && 0 <= o.value.value < count
    ensures !SafePromptNumber(replies, Some(count - 1), PeriodInRange(parseInt, count), parseInt).Threw?
  {
  }

  /** As written, the period prompt can only ever answer the default index:
      the first non-empty reply makes the check throw. */
  lemma AsWrittenPeriodPromptOnlyDefault(count: int, parseInt: string -> Option<int>, replies: seq<string>)
    ensures var o := SafePromptNumber(replies, Some(count - 1), PeriodCheckAsWritten(), parseInt);
      && (o.Answered? ==> o == Answered(Some(count - 1), 1))
      && (|replies| > 0 && replies[0] != "" ==> o == Threw("ReferenceError: index is not defined"))
  {
  }

  /** With `value` read in place of `index`, the prompt accepts an out-of-range
      index at once and asks again for every valid one. */
  lemma InvertedPeriodCheckAcceptsOutOfRange(parseInt: string -> Option<int>, count: int, reply: string, rest: seq<string>)
    requires reply != ""
    ensures var k := parseInt(reply);
      var o := SafePromptNumber([reply] + rest, Some(count - 1), PeriodCheckInverted(parseInt, count), parseInt);
      && (k.Some? && count <= k.value ==> o == Answered(k, 1))
      && (k.Some? && 0 <= k.value < count ==> Skipped(reply, PeriodCheckInverted(parseInt, count)))
  {
    assert ([reply] + rest)[0] == reply;
  }
}
